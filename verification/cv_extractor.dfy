/**
 * `supabase/functions/extract-cv-data/index.ts`: `CVExtractor.parseExtractedText`, which
 * runs a table of patterns over the decoded text. For each key of the table, in order,
 * the patterns are tried in order; the first that matches somewhere gives the key its
 * value, the trimmed first capture group, and a key no pattern matches stays absent.
 *
 * Most patterns are a label, a separator `\s*[:\-]?\s*` and a captured value, all under
 * the `i` flag. The telephone patterns have no capture group, so reading `match[1]`
 * of a telephone match fails and the whole parse with it.
 */
module CvExtractor {
  import opened Common
  import opened Chars
  import opened Strings
  import opened Matching
  import opened Phones
  import opened Emails
  import opened Formats

  // ---------------------------------------------------------------------------
  // the captured values

  /** `[A-ZÀ-Ÿ]` under the `i` flag: ASCII letters and everything from À (U+00C0) to
      Ÿ (U+0178); see `NameInitialIgnoringCase`. */
  predicate IsNameInitial(c: char) {
    IsAsciiLetter(c) || ('\U{00C0}' <= c <= '\U{0178}')
  }

  /** The members of `[A-ZÀ-Ÿ]` as written. */
  predicate InInitialClass(c: char) {
    IsAsciiUpper(c) || ('\U{00C0}' <= c <= '\U{0178}')
  }

  /** `[a-zà-ÿ-]` under the `i` flag: ASCII letters, the Latin-1 letters in both cases,
      the division sign (which lies inside à-ÿ), ÿ with its capital Ÿ, and `-`. */
  predicate IsNameRest(c: char) {
    || IsAsciiLetter(c) || IsLatin1Upper(c) || IsLatin1Lower(c)
    || c == '\U{00F7}' || c == '\U{00FF}' || c == '\U{0178}' || c == '-'
  }

  /** The members of `[a-zà-ÿ-]` as written. */
  predicate InRestClass(c: char) {
    IsAsciiLower(c) || ('\U{00E0}' <= c <= '\U{00FF}') || c == '-'
  }

  /** Under the `i` flag a class matches a character when some member has the same case
      canonical form; `IsNameInitial` is exactly that for `[A-ZÀ-Ÿ]`. */
  lemma NameInitialIgnoringCase(c: char)
    ensures IsNameInitial(c) <==> exists m :: InInitialClass(m) && Upper(m) == Upper(c)
  {
    if IsNameInitial(c) {
      var m := if IsAsciiLower(c) then Upper(c) else c;
      assert InInitialClass(m) && Upper(m) == Upper(c);
    }
    if exists m :: InInitialClass(m) && Upper(m) == Upper(c) {
      var m :| InInitialClass(m) && Upper(m) == Upper(c);
      if !IsAsciiLower(c) && !IsLatin1Lower(c) && c != '\U{00FF}' {
        assert Upper(c) == c;
      }
    }
  }

  /** ... and `IsNameRest` is that for `[a-zà-ÿ-]`. */
  lemma NameRestIgnoringCase(c: char)
    ensures IsNameRest(c) <==> exists m :: InRestClass(m) && Upper(m) == Upper(c)
  {
    if IsNameRest(c) {
      var m := if IsAsciiUpper(c) || IsLatin1Upper(c) then Lower(c) else if c == '\U{0178}' then '\U{00FF}' else c;
      assert InRestClass(m) && Upper(m) == Upper(c);
    }
    if exists m :: InRestClass(m) && Upper(m) == Upper(c) {
      var m :| InRestClass(m) && Upper(m) == Upper(c);
      if !IsAsciiLower(c) && !IsLatin1Lower(c) && c != '\U{00FF}' {
        assert Upper(c) == c;
      }
    }
  }

  predicate IsNotLineTerminator(c: char) { !IsLineTerminator(c) }

  predicate IsNotLineFeed(c: char) { c != '\n' }

  /** What the capture group of a labelled pattern matches. */
  datatype ValueKind =
    | NameWord      // ([A-ZÀ-Ÿ][a-zà-ÿ-]+)
    | AddressSpan   // (.{20,100})
    | RestOfLine    // ([^\n]+)

  /** The end of the value of kind `kind` starting at `p`, as the greedy search takes it. */
  function ValueEnd(kind: ValueKind, text: string, p: nat): (r: Option<nat>)
    requires p <= |text|
    ensures r.Some? ==> p < r.value <= |text|
  {
    match kind
    case NameWord =>
      if p < |text| && IsNameInitial(text[p]) then
        var e := RunEnd(text, p + 1, IsNameRest);
        if e > p + 1 then Some(e) else None
      else None
    case AddressSpan =>
      var e := RunEnd(text, p, IsNotLineTerminator);
      if e - p >= 20 then Some(Min(e, p + 100)) else None
    case RestOfLine =>
      var e := RunEnd(text, p, IsNotLineFeed);
      if e > p then Some(e) else None
  }

  /** An address value has from 20 to 100 characters and no line terminator. */
  lemma AddressValueShape(text: string, p: nat)
    requires p <= |text| && ValueEnd(AddressSpan, text, p).Some?
    ensures var e := ValueEnd(AddressSpan, text, p).value;
      20 <= e - p <= 100 && forall k :: p <= k < e ==> !IsLineTerminator(text[k])
  {
  }

  /** `text[p..e]` is a value of kind `kind`: a name-initial and at least one more name
      letter, 20 to 100 characters without a line terminator, or a non-empty run without
      a line feed. */
  ghost predicate ValueAccepts(kind: ValueKind, text: string, p: nat, e: nat) {
    match kind
    case NameWord => p + 2 <= e <= |text| && IsNameInitial(text[p]) && AllIn(text, p + 1, e, IsNameRest)
    case AddressSpan => p + 20 <= e <= p + 100 && e <= |text| && AllIn(text, p, e, IsNotLineTerminator)
    case RestOfLine => p < e <= |text| && AllIn(text, p, e, IsNotLineFeed)
  }

  /** The greedy value is the longest accepted one at `p`, and there is none exactly when
      no value is accepted there. */
  lemma ValueEndIsLongest(kind: ValueKind, text: string, p: nat)
    requires p <= |text|
    ensures ValueEnd(kind, text, p).None? <==> forall e: nat :: !ValueAccepts(kind, text, p, e)
    ensures ValueEnd(kind, text, p).Some? ==>
      && ValueAccepts(kind, text, p, ValueEnd(kind, text, p).value)
      && forall e: nat :: ValueAccepts(kind, text, p, e) ==> e <= ValueEnd(kind, text, p).value
  {
    forall e: nat | ValueAccepts(kind, text, p, e)
      ensures ValueEnd(kind, text, p).Some? && e <= ValueEnd(kind, text, p).value
    {
      match kind
      case NameWord => RunEndCovers(text, p + 1, e, IsNameRest);
      case AddressSpan => RunEndCovers(text, p, e, IsNotLineTerminator);
      case RestOfLine => RunEndCovers(text, p, e, IsNotLineFeed);
    }
    if ValueEnd(kind, text, p).Some? {
      assert ValueAccepts(kind, text, p, ValueEnd(kind, text, p).value);
    }
  }

  // ---------------------------------------------------------------------------
  // label and separator

  /** A label is a list of words joined by `\s*`, as in `last\s*name`. The end of the label
      `words` read from `i`, ignoring case. */
  function LabelEnd(text: string, i: nat, words: seq<string>): (r: Option<nat>)
    ensures r.Some? ==> i <= r.value <= |text|
    decreases |words|
  {
    if words == [] then (if i <= |text| then Some(i) else None)
    else if !LiteralIgnoringCaseAt(text, i, words[0]) then None
    else
      var a := i + |words[0]|;
      if |words| == 1 then Some(a)
      else LabelEnd(text, RunEnd(text, a, IsJsSpace), words[1..])
  }

  /** `text[i..a]` reads the words of `words` in order, ignoring case, with white space
      between consecutive words. */
  ghost predicate LabelAccepts(text: string, i: nat, words: seq<string>, a: nat)
    decreases |words|
  {
    if words == [] then i == a <= |text|
    else
      && LiteralIgnoringCaseAt(text, i, words[0])
      && if |words| == 1 then a == i + |words[0]|
         else exists s: nat | i + |words[0]| <= s <= |text| ::
           AllIn(text, i + |words[0]|, s, IsJsSpace) && LabelAccepts(text, s, words[1..], a)
  }

  /** Every word of the label starts with an ASCII letter, as every label of the table
      does. */
  predicate WordsStartWithLetter(words: seq<string>) {
    forall k :: 0 <= k < |words| ==> |words[k]| > 0 && IsAsciiLetter(words[k][0])
  }

  /** When every word starts with a letter, the `\s*` between two words never gives back
      white space, so the label read by `LabelEnd` is the only one. */
  lemma {:induction false} LabelEndExact(text: string, i: nat, words: seq<string>, a: nat)
    requires WordsStartWithLetter(words)
    ensures LabelEnd(text, i, words) == Some(a) <==> LabelAccepts(text, i, words, a)
    decreases |words|
  {
    if |words| > 1 && LiteralIgnoringCaseAt(text, i, words[0]) {
      var b := i + |words[0]|;
      var r := RunEnd(text, b, IsJsSpace);
      var rest := words[1..];
      assert WordsStartWithLetter(rest) by {
        assert forall k :: 0 <= k < |rest| ==> rest[k] == words[k + 1];
      }
      LabelEndExact(text, r, rest, a);
      if LabelAccepts(text, i, words, a) {
        var s: nat :| b <= s <= |text| && AllIn(text, b, s, IsJsSpace) && LabelAccepts(text, s, rest, a);
        assert rest[0] == words[1];
        LiteralIgnoringCaseHead(text, s, rest[0]);
        RunEndUnique(text, b, s, IsJsSpace);
      }
    }
  }

  predicate IsColonOrDash(c: char) { c == ':' || c == '-' }

  /** `text[s..p]` is `[:\-]?\s*`: white space, after at most one colon or dash. */
  ghost predicate ColonThenSpace(text: string, s: nat, p: nat) {
    && s <= p <= |text|
    && (|| AllIn(text, s, p, IsJsSpace)
        || (s < p && IsColonOrDash(text[s]) && AllIn(text, s + 1, p, IsJsSpace)))
  }

  /** `text[a..p]` is the separator `\s*[:\-]?\s*`, or `[:\-]?\s*` when `!spaceFirst`. */
  ghost predicate SeparatorAccepts(text: string, a: nat, p: nat, spaceFirst: bool) {
    if spaceFirst then
      exists s: nat | a <= s <= p :: s <= |text| && AllIn(text, a, s, IsJsSpace) && ColonThenSpace(text, s, p)
    else ColonThenSpace(text, a, p)
  }

  /** `[p, q]`, largest first: the lengths a greedy `\s*` tries, as end indices. */
  function Down(p: nat, q: nat): (r: seq<nat>)
    ensures |r| == if q >= p then q - p + 1 else 0
    ensures forall k :: 0 <= k < |r| ==> r[k] == q - k
    decreases q
  {
    if q < p then [] else [q] + (if q == 0 then [] else Down(p, q - 1))
  }

  /** The value starts `[:\-]?\s*` offers from `s`, in backtracking order: with the
      separator first, when one stands there, then without. */
  function AfterColon(text: string, s: nat): (r: seq<nat>)
    requires s <= |text|
    ensures forall k :: 0 <= k < |r| ==> s <= r[k] <= |text|
  {
    var withColon :=
      if s < |text| && IsColonOrDash(text[s]) then Down(s + 1, RunEnd(text, s + 1, IsJsSpace)) else [];
    withColon + Down(s, RunEnd(text, s, IsJsSpace))
  }

  /** The value starts `\s*[:\-]?\s*` offers from `a`, in backtracking order. */
  function AfterSpaceAndColon(text: string, a: nat): (r: seq<nat>)
    requires a <= |text|
    ensures forall k :: 0 <= k < |r| ==> a <= r[k] <= |text|
  {
    AfterColonFrom(text, a, RunEnd(text, a, IsJsSpace))
  }

  /** The starts for every length of the first `\s*`, from `s` down to `a`. */
  function AfterColonFrom(text: string, a: nat, s: nat): (r: seq<nat>)
    requires a <= s <= |text|
    ensures forall k :: 0 <= k < |r| ==> a <= r[k] <= |text|
    decreases s
  {
    AfterColon(text, s) + (if s == a then [] else AfterColonFrom(text, a, s - 1))
  }

  /** The value starts the separator offers after a label ending at `a`, in backtracking
      order. */
  function Starts(text: string, a: nat, spaceFirst: bool): (r: seq<nat>)
    requires a <= |text|
    ensures forall k :: 0 <= k < |r| ==> a <= r[k] <= |text|
  {
    if spaceFirst then AfterSpaceAndColon(text, a) else AfterColon(text, a)
  }

  lemma DownMembers(p: nat, q: nat)
    ensures forall x :: x in Down(p, q) <==> p <= x <= q
  {
    forall x | p <= x <= q ensures x in Down(p, q) {
      assert Down(p, q)[q - x] == x;
    }
  }

  /** A greedy `\s*` from `c` can stop at `p` exactly when `text[c..p]` is white space. */
  lemma SpaceRunMembers(text: string, c: nat)
    requires c <= |text|
    ensures forall p :: p in Down(c, RunEnd(text, c, IsJsSpace)) <==> c <= p <= |text| && AllIn(text, c, p, IsJsSpace)
  {
    DownMembers(c, RunEnd(text, c, IsJsSpace));
    forall p | c <= p <= |text| && AllIn(text, c, p, IsJsSpace) ensures p <= RunEnd(text, c, IsJsSpace) {
      RunEndCovers(text, c, p, IsJsSpace);
    }
  }

  /** The starts `[:\-]?\s*` offers from `s` are exactly the ends of its matches. */
  lemma AfterColonMembers(text: string, s: nat)
    requires s <= |text|
    ensures forall p :: p in AfterColon(text, s) <==> ColonThenSpace(text, s, p)
  {
    SpaceRunMembers(text, s);
    if s < |text| {
      SpaceRunMembers(text, s + 1);
    }
  }

  /** The starts offered for every length of the first `\s*` from `s` down to `a`. */
  lemma {:induction false} AfterColonFromMembers(text: string, a: nat, s: nat)
    requires a <= s <= |text|
    ensures forall p :: p in AfterColonFrom(text, a, s) <==> exists s': nat | a <= s' <= s :: ColonThenSpace(text, s', p)
    decreases s
  {
    var here := AfterColon(text, s);
    AfterColonMembers(text, s);
    if s == a {
      assert AfterColonFrom(text, a, s) == here + [];
    } else {
      var rest := AfterColonFrom(text, a, s - 1);
      AfterColonFromMembers(text, a, s - 1);
      assert AfterColonFrom(text, a, s) == here + rest;
      forall p | exists s': nat | a <= s' <= s :: ColonThenSpace(text, s', p) ensures p in here + rest {
        var s': nat :| a <= s' <= s && ColonThenSpace(text, s', p);
        if s' < s {
          assert p in rest;
        }
      }
    }
  }

  /** The starts offered after a label are exactly the ends of the separators that follow
      it. */
  lemma StartsAreSeparators(text: string, a: nat, spaceFirst: bool)
    requires a <= |text|
    ensures forall p :: p in Starts(text, a, spaceFirst) <==> SeparatorAccepts(text, a, p, spaceFirst)
  {
    if spaceFirst {
      var r := RunEnd(text, a, IsJsSpace);
      AfterColonFromMembers(text, a, r);
      forall s': nat | a <= s' <= |text| && AllIn(text, a, s', IsJsSpace) ensures s' <= r {
        RunEndCovers(text, a, s', IsJsSpace);
      }
    } else {
      AfterColonMembers(text, a);
    }
  }

  /** Every start larger than the one at `k` is tried before `k`: in the order
      backtracking tries the separator's ends, a longer separator comes first. */
  ghost predicate LargerFirst(starts: seq<nat>) {
    forall k, x :: 0 <= k < |starts| && x in starts && starts[k] < x ==> x in starts[..k]
  }

  /** Every element of `b` larger than some element of `a` comes before it in `a`. */
  ghost predicate Dominates(a: seq<nat>, b: seq<nat>) {
    forall k, x :: 0 <= k < |a| && x in b && a[k] < x ==> x in a[..k]
  }

  lemma ConcatLargerFirst(a: seq<nat>, b: seq<nat>)
    requires LargerFirst(a) && LargerFirst(b) && Dominates(a, b)
    ensures LargerFirst(a + b)
  {
    var c := a + b;
    forall k, x | 0 <= k < |c| && x in c && c[k] < x ensures x in c[..k] {
      if k < |a| {
        assert c[k] == a[k] && c[..k] == a[..k];
      } else if x in a {
        var j :| 0 <= j < |a| && a[j] == x;
        assert c[..k][j] == x;
      } else {
        assert c[k] == b[k - |a|];
        var j :| 0 <= j < k - |a| && b[j] == x;
        assert c[..k][|a| + j] == x;
      }
    }
  }

  lemma DownLargerFirst(p: nat, q: nat)
    ensures LargerFirst(Down(p, q))
  {
    var d := Down(p, q);
    forall k, x | 0 <= k < |d| && x in d && d[k] < x ensures x in d[..k] {
      var j :| 0 <= j < |d| && d[j] == x;
      assert d[..k][j] == x;
    }
  }

  /** `[:\-]?\s*` tries its ends longest first. */
  lemma AfterColonLargerFirst(text: string, s: nat)
    requires s <= |text|
    ensures LargerFirst(AfterColon(text, s))
  {
    var d := Down(s, RunEnd(text, s, IsJsSpace));
    DownLargerFirst(s, RunEnd(text, s, IsJsSpace));
    if s < |text| && IsColonOrDash(text[s]) {
      var w := Down(s + 1, RunEnd(text, s + 1, IsJsSpace));
      DownLargerFirst(s + 1, RunEnd(text, s + 1, IsJsSpace));
      assert d == [s];
      ConcatLargerFirst(w, d);
    } else {
      assert AfterColon(text, s) == [] + d;
    }
  }

  /** Within the leading white-space run, the colon-and-space part from `s` offers exactly
      the ends from `s` to the end of the run, longest first. */
  lemma AfterColonInsideRun(text: string, a: nat, s: nat)
    requires a <= |text| && a <= s < RunEnd(text, a, IsJsSpace)
    ensures AfterColon(text, s) == Down(s, RunEnd(text, a, IsJsSpace))
  {
    RunEndUnique(text, s, RunEnd(text, a, IsJsSpace), IsJsSpace);
  }

  /** Inside the leading white-space run no start passes the run's end. */
  lemma AfterColonFromBelow(text: string, a: nat, s: nat)
    requires a <= |text| && a <= s < RunEnd(text, a, IsJsSpace)
    ensures forall x :: x in AfterColonFrom(text, a, s) ==> x <= RunEnd(text, a, IsJsSpace)
  {
    var r := RunEnd(text, a, IsJsSpace);
    AfterColonFromMembers(text, a, s);
    forall x | x in AfterColonFrom(text, a, s) ensures x <= r {
      var s': nat :| a <= s' <= s && ColonThenSpace(text, s', x);
      RunEndUnique(text, s', r, IsJsSpace);
      RunEndCovers(text, s', x, IsJsSpace);
    }
  }

  /** A descending interval dominates anything below its top. */
  lemma DownDominates(p: nat, q: nat, b: seq<nat>)
    requires forall x :: x in b ==> x <= q
    ensures Dominates(Down(p, q), b)
  {
    var d := Down(p, q);
    forall k, x | 0 <= k < |d| && x in b && d[k] < x ensures x in d[..k] {
      assert d[..k][q - x] == x;
    }
  }

  /** Nothing of `b` lies above an element of `a` when `a` lies above `b`. */
  lemma AboveDominates(a: seq<nat>, b: seq<nat>, m: nat)
    requires forall k :: 0 <= k < |a| ==> m <= a[k]
    requires forall x :: x in b ==> x <= m
    ensures Dominates(a, b)
  {
  }

  /** The ends tried with the first `\s*` stopping at `t + 1` dominate those tried with
      it stopping at `t` or before. */
  lemma HereDominatesRest(text: string, a: nat, t: nat)
    requires a <= |text| && a <= t < RunEnd(text, a, IsJsSpace)
    ensures Dominates(AfterColon(text, t + 1), AfterColonFrom(text, a, t))
  {
    AfterColonFromBelow(text, a, t);
    if t + 1 < RunEnd(text, a, IsJsSpace) {
      InsideRunDominates(text, a, t);
    } else {
      RunEndDominates(text, a, t);
    }
  }

  /** Inside the white-space run, the part from `t + 1` is the whole interval down to
      `t + 1`. */
  lemma InsideRunDominates(text: string, a: nat, t: nat)
    requires a <= |text| && a <= t && t + 1 < RunEnd(text, a, IsJsSpace)
    requires forall x :: x in AfterColonFrom(text, a, t) ==> x <= RunEnd(text, a, IsJsSpace)
    ensures Dominates(AfterColon(text, t + 1), AfterColonFrom(text, a, t))
  {
    var r := RunEnd(text, a, IsJsSpace);
    AfterColonInsideRun(text, a, t + 1);
    DownDominates(t + 1, r, AfterColonFrom(text, a, t));
  }

  /** At the end of the run every end tried lies at or past it. */
  lemma RunEndDominates(text: string, a: nat, t: nat)
    requires a <= |text| && a <= t && t + 1 == RunEnd(text, a, IsJsSpace)
    requires forall x :: x in AfterColonFrom(text, a, t) ==> x <= t + 1
    ensures Dominates(AfterColon(text, t + 1), AfterColonFrom(text, a, t))
  {
    AboveDominates(AfterColon(text, t + 1), AfterColonFrom(text, a, t), t + 1);
  }

  /** One more character of the leading white space puts its ends in front. */
  lemma AfterColonFromUnfold(text: string, a: nat, t: nat)
    requires a <= t < |text|
    ensures AfterColonFrom(text, a, t + 1) == AfterColon(text, t + 1) + AfterColonFrom(text, a, t)
  {
  }

  /** The step of `AfterColonFromLargerFirst`. */
  lemma AfterColonFromStep(text: string, a: nat, t: nat)
    requires a <= |text| && a <= t < RunEnd(text, a, IsJsSpace)
    requires LargerFirst(AfterColonFrom(text, a, t))
    ensures LargerFirst(AfterColonFrom(text, a, t + 1))
  {
    AfterColonFromUnfold(text, a, t);
    AfterColonLargerFirst(text, t + 1);
    HereDominatesRest(text, a, t);
    ConcatLargerFirst(AfterColon(text, t + 1), AfterColonFrom(text, a, t));
  }

  /** `\s*[:\-]?\s*`, with the first `\s*` stopping at `s` or before, tries its ends
      longest first. */
  lemma {:induction false} AfterColonFromLargerFirst(text: string, a: nat, s: nat)
    requires a <= |text| && a <= s <= RunEnd(text, a, IsJsSpace)
    ensures LargerFirst(AfterColonFrom(text, a, s))
    decreases s
  {
    if s == a {
      assert AfterColonFrom(text, a, s) == AfterColon(text, s) + [] == AfterColon(text, s);
      AfterColonLargerFirst(text, s);
    } else {
      var t := s - 1;
      AfterColonFromLargerFirst(text, a, t);
      AfterColonFromStep(text, a, t);
      assert t + 1 == s;
    }
  }

  /** The separator after a label tries its ends longest first. */
  lemma StartsLargerFirst(text: string, a: nat, spaceFirst: bool)
    requires a <= |text|
    ensures LargerFirst(Starts(text, a, spaceFirst))
  {
    if spaceFirst {
      AfterColonFromLargerFirst(text, a, RunEnd(text, a, IsJsSpace));
    } else {
      AfterColonLargerFirst(text, a);
    }
  }

  /** The first start in `starts` at which a value follows, with the value's end. */
  function FirstValue(kind: ValueKind, text: string, starts: seq<nat>): (r: Option<(nat, nat)>)
    requires forall k :: 0 <= k < |starts| ==> starts[k] <= |text|
    ensures r.Some? ==> r.value.0 in starts && ValueEnd(kind, text, r.value.0) == Some(r.value.1)
    ensures r.Some? ==>
      exists k :: 0 <= k < |starts| && starts[k] == r.value.0
        && forall k' :: 0 <= k' < k ==> ValueEnd(kind, text, starts[k']).None?
    ensures r.None? <==> forall k :: 0 <= k < |starts| ==> ValueEnd(kind, text, starts[k]).None?
  {
    if starts == [] then None
    else match ValueEnd(kind, text, starts[0])
      case Some(e) => Some((starts[0], e))
      case None =>
        assert forall k :: 0 <= k < |starts[1..]| ==> starts[1..][k] == starts[k + 1];
        FirstValue(kind, text, starts[1..])
  }

  /** When longer starts come first, a start before which no start yields a value is
      the largest that yields one. */
  lemma FirstAtIsLargest(kind: ValueKind, text: string, starts: seq<nat>, k: nat)
    requires forall j :: 0 <= j < |starts| ==> starts[j] <= |text|
    requires LargerFirst(starts) && k < |starts|
    requires forall j :: 0 <= j < k ==> ValueEnd(kind, text, starts[j]).None?
    ensures forall x :: x in starts && ValueEnd(kind, text, x).Some? ==> x <= starts[k]
  {
    forall x | x in starts && starts[k] < x ensures ValueEnd(kind, text, x).None? {
      var j :| 0 <= j < k && starts[..k][j] == x;
      assert starts[j] == x;
    }
  }

  /** When longer starts come first, the value found starts at the largest start that
      admits a value. */
  lemma FirstValueIsLargest(kind: ValueKind, text: string, starts: seq<nat>)
    requires forall k :: 0 <= k < |starts| ==> starts[k] <= |text|
    requires LargerFirst(starts)
    ensures var r := FirstValue(kind, text, starts);
      r.Some? ==> forall x :: x in starts && ValueEnd(kind, text, x).Some? ==> x <= r.value.0
  {
    var r := FirstValue(kind, text, starts);
    if r.Some? {
      var k :| 0 <= k < |starts| && starts[k] == r.value.0
        && forall k' :: 0 <= k' < k ==> ValueEnd(kind, text, starts[k']).None?;
      FirstAtIsLargest(kind, text, starts, k);
    }
  }

  // ---------------------------------------------------------------------------
  // patterns

  /** `(?:<label>|...)<sep>(<value>)` with the `i` flag; `spaceFirst` says whether the
      separator starts with `\s*` (every table entry but the skills one). */
  datatype LabelPattern = LabelPattern(labels: seq<seq<string>>, spaceFirst: bool, value: ValueKind)

  /** Attempt `k` is the first from `lo` on that succeeds. */
  ghost predicate FirstSuccess(attempt: nat -> Option<(nat, nat)>, lo: nat, k: nat) {
    lo <= k && attempt(k).Some? && forall j :: lo <= j < k ==> attempt(j).None?
  }

  /** The result of the first attempt from `lo` to `hi` that succeeds: how a regular
      expression tries the alternatives of a group in order, and its start indices left
      to right. */
  function FirstAttempt(attempt: nat -> Option<(nat, nat)>, lo: nat, hi: nat): (r: Option<(nat, nat)>)
    ensures r.Some? ==> exists k: nat :: k <= hi && FirstSuccess(attempt, lo, k) && attempt(k) == r
    ensures r.None? ==> forall k: nat :: lo <= k <= hi ==> attempt(k).None?
    decreases hi + 1 - lo
  {
    if lo > hi then None
    else if attempt(lo).Some? then
      assert FirstSuccess(attempt, lo, lo);
      attempt(lo)
    else
      var r := FirstAttempt(attempt, lo + 1, hi);
      assert forall k: nat :: FirstSuccess(attempt, lo + 1, k) ==> FirstSuccess(attempt, lo, k);
      r
  }

  /** The scan returns attempt `k` when it succeeds and every earlier one fails. */
  lemma {:induction false} FirstAttemptIsFirst(attempt: nat -> Option<(nat, nat)>, lo: nat, hi: nat, k: nat)
    requires lo <= k <= hi && attempt(k).Some?
    requires forall j: nat :: lo <= j < k ==> attempt(j).None?
    ensures FirstAttempt(attempt, lo, hi) == attempt(k)
    decreases k - lo
  {
    if lo < k {
      FirstAttemptIsFirst(attempt, lo + 1, hi, k);
    }
  }

  /** The value alternative `n` of the label yields at `i`: the label, then the first start
      the separator offers at which a value follows, with the value's end. */
  function AlternativeValue(text: string, i: nat, lp: LabelPattern, n: nat): (r: Option<(nat, nat)>)
    ensures r.Some? ==> n < |lp.labels| && i <= r.value.0 < r.value.1 <= |text|
  {
    if n >= |lp.labels| then None
    else match LabelEnd(text, i, lp.labels[n])
      case None => None
      case Some(a) => FirstValue(lp.value, text, Starts(text, a, lp.spaceFirst))
  }

  /** The captured value of one attempt of a labelled pattern at `i`, as a span. The
      alternatives of the label are tried in order, from `n` on. */
  function LabelledAt(text: string, i: nat, lp: LabelPattern, n: nat): (r: Option<(nat, nat)>)
    ensures r.Some? ==> i <= r.value.0 < r.value.1 <= |text|
  {
    FirstAttempt((k: nat) => AlternativeValue(text, i, lp, k), n, |lp.labels|)
  }

  /** The attempts of a labelled pattern, by start index. */
  function Attempts(text: string, lp: LabelPattern): nat -> Option<(nat, nat)> {
    (k: nat) => LabelledAt(text, k, lp, 0)
  }

  /** `text.match(re)` for a labelled pattern: the value of the leftmost attempt that
      succeeds, from `i` on. */
  function FirstLabelled(text: string, lp: LabelPattern, i: nat): (r: Option<(nat, nat)>)
    ensures r.Some? ==> i <= r.value.0 < r.value.1 <= |text|
  {
    FirstAttempt(Attempts(text, lp), i, |text|)
  }

  /** The scan returns the attempt at the first start from `i` on that succeeds, and
      nothing only when every start fails. */
  lemma FirstLabelledIsFirstSuccess(text: string, lp: LabelPattern, i: nat)
    ensures var r := FirstLabelled(text, lp, i);
      r.Some? ==> exists k: nat :: k <= |text| && FirstSuccess(Attempts(text, lp), i, k) && LabelledAt(text, k, lp, 0) == r
    ensures FirstLabelled(text, lp, i).None? ==> forall k: nat :: i <= k <= |text| ==> LabelledAt(text, k, lp, 0).None?
  {
    var attempts := Attempts(text, lp);
    assert FirstLabelled(text, lp, i) == FirstAttempt(attempts, i, |text|);
    assert forall k: nat :: attempts(k) == LabelledAt(text, k, lp, 0);
  }

  /** The scan returns the attempt at `k` when every earlier start fails. */
  lemma FirstLabelledIsLeftmost(text: string, lp: LabelPattern, i: nat, k: nat)
    requires i <= k <= |text|
    requires forall j :: i <= j < k ==> LabelledAt(text, j, lp, 0).None?
    requires LabelledAt(text, k, lp, 0).Some?
    ensures FirstLabelled(text, lp, i) == LabelledAt(text, k, lp, 0)
  {
    var attempts := Attempts(text, lp);
    assert forall j: nat :: attempts(j) == LabelledAt(text, j, lp, 0);
    FirstAttemptIsFirst(attempts, i, |text|, k);
  }

  /** Alternative `n` of the label reads `text[i..a]` for some `a`, a separator follows up
      to `p`, and `text[p..e]` is a value: one way the pattern matches at `i`. */
  ghost predicate AlternativeAccepts(text: string, i: nat, lp: LabelPattern, n: nat, p: nat, e: nat) {
    && n < |lp.labels|
    && exists a: nat | i <= a <= p ::
         LabelAccepts(text, i, lp.labels[n], a) && SeparatorAccepts(text, a, p, lp.spaceFirst) && ValueAccepts(lp.value, text, p, e)
  }

  /** Every word of every alternative starts with a letter. */
  predicate LabelsStartWithLetter(lp: LabelPattern) {
    forall n :: 0 <= n < |lp.labels| ==> WordsStartWithLetter(lp.labels[n])
  }

  /** Alternative `n` matches at `i` in no way. */
  ghost predicate AlternativeFails(text: string, i: nat, lp: LabelPattern, n: nat) {
    forall p: nat, e: nat :: !AlternativeAccepts(text, i, lp, n, p, e)
  }

  /** Alternative `n` matches at `i` with the value `text[p..e]`, where `p` is the
      largest separator end that admits a value and `e` the longest end at `p`, and every
      alternative from `n0` to before `n` fails: the match a backtracking search that
      starts with alternative `n0` reports. */
  ghost predicate FirstAlternative(text: string, i: nat, lp: LabelPattern, n0: nat, n: nat, p: nat, e: nat) {
    && n0 <= n && AlternativeAccepts(text, i, lp, n, p, e)
    && (forall p': nat, e': nat :: AlternativeAccepts(text, i, lp, n, p', e') ==> p' <= p)
    && (forall e': nat :: AlternativeAccepts(text, i, lp, n, p, e') ==> e' <= e)
    && (forall n': nat :: n0 <= n' < n ==> AlternativeFails(text, i, lp, n'))
  }

  /** One alternative on its own: it fails exactly when it matches in no way, and
      otherwise yields an accepted value at the largest separator end that admits one,
      the longest at that start. */
  lemma AlternativeOutcome(text: string, i: nat, lp: LabelPattern, n: nat)
    requires n < |lp.labels| && LabelsStartWithLetter(lp)
    ensures AlternativeValue(text, i, lp, n).None? <==> AlternativeFails(text, i, lp, n)
    ensures AlternativeValue(text, i, lp, n).Some? ==>
      FirstAlternative(text, i, lp, n, n, AlternativeValue(text, i, lp, n).value.0, AlternativeValue(text, i, lp, n).value.1)
  {
    var words := lp.labels[n];
    var a := LabelEnd(text, i, words);
    forall a': nat ensures LabelEnd(text, i, words) == Some(a') <==> LabelAccepts(text, i, words, a') {
      LabelEndExact(text, i, words, a');
    }
    if a.Some? {
      var starts := Starts(text, a.value, lp.spaceFirst);
      var fv := FirstValue(lp.value, text, starts);
      StartsAreSeparators(text, a.value, lp.spaceFirst);
      forall p: nat, e: nat | AlternativeAccepts(text, i, lp, n, p, e)
        ensures p in starts && ValueAccepts(lp.value, text, p, e)
      {
      }
      if fv.Some? {
        var v := fv.value;
        ValueEndIsLongest(lp.value, text, v.0);
        assert AlternativeAccepts(text, i, lp, n, v.0, v.1);
        StartsLargerFirst(text, a.value, lp.spaceFirst);
        FirstValueIsLargest(lp.value, text, starts);
        forall p: nat, e: nat | AlternativeAccepts(text, i, lp, n, p, e) ensures p <= v.0 {
          ValueEndIsLongest(lp.value, text, p);
        }
      } else {
        forall p: nat, e: nat | AlternativeAccepts(text, i, lp, n, p, e) ensures false {
          var k :| 0 <= k < |starts| && starts[k] == p;
          ValueEndIsLongest(lp.value, text, p);
        }
      }
    }
  }

  /** An attempt of a labelled pattern at `i`, from alternative `n0` on: it fails exactly
      when no alternative matches there, and otherwise yields the longest value of the
      first alternative that matches. */
  lemma LabelledAtIsFirstAlternative(text: string, i: nat, lp: LabelPattern, n0: nat)
    requires LabelsStartWithLetter(lp)
    ensures LabelledAt(text, i, lp, n0).None? <==> forall n: nat :: n0 <= n ==> AlternativeFails(text, i, lp, n)
    ensures LabelledAt(text, i, lp, n0).Some? ==>
      exists n: nat :: FirstAlternative(text, i, lp, n0, n, LabelledAt(text, i, lp, n0).value.0, LabelledAt(text, i, lp, n0).value.1)
  {
    var alt := (k: nat) => AlternativeValue(text, i, lp, k);
    var r := LabelledAt(text, i, lp, n0);
    assert r == FirstAttempt(alt, n0, |lp.labels|);
    if r.None? {
      forall n: nat | n0 <= n ensures AlternativeFails(text, i, lp, n) {
        if n < |lp.labels| {
          assert alt(n).None?;
          AlternativeOutcome(text, i, lp, n);
        }
      }
    } else {
      var k: nat :| k <= |lp.labels| && FirstSuccess(alt, n0, k) && alt(k) == r;
      AlternativeOutcome(text, i, lp, k);
      forall n': nat | n0 <= n' < k ensures AlternativeFails(text, i, lp, n') {
        assert alt(n').None?;
        AlternativeOutcome(text, i, lp, n');
      }
      assert FirstAlternative(text, i, lp, n0, k, r.value.0, r.value.1);
    }
  }

  /** The patterns matched as a whole. `grouped` says whether the pattern is wrapped in a
      capture group, as the address pattern is and the telephone patterns are not. */
  datatype WholeKind = EmailWhole | FrenchPhoneWhole | TenDigitsWhole

  datatype Pattern = Labelled(lp: LabelPattern) | Whole(kind: WholeKind, grouped: bool)

  /** The pattern has a capture group: a labelled one, or a grouped whole pattern. */
  predicate HasGroup(p: Pattern) { p.Labelled? || p.grouped }

  function WholeMatcher(kind: WholeKind): (m: Matcher)
    ensures Bounded(m)
  {
    EmailGreedy(AnyCaseEmail);
    FrenchPhoneLooseGreedy();
    TenDigitsRecognises();
    match kind
    case EmailWhole => EmailAt(AnyCaseEmail)
    case FrenchPhoneWhole => FrenchPhoneLooseAt
    case TenDigitsWhole => TenDigitsAt
  }

  /** `text.match(pattern)`: the text of the captured value of a labelled pattern, the
      whole match of the others. */
  function MatchOf(text: string, p: Pattern): Option<string> {
    match p
    case Labelled(lp) =>
      (match FirstLabelled(text, lp, 0)
       case None => None
       case Some(v) => Some(text[v.0..v.1]))
    case Whole(kind, _) => MatchText(text, WholeMatcher(kind))
  }

  /** No alternative of the label matches at `i`. */
  ghost predicate NoMatchAt(text: string, i: nat, lp: LabelPattern) {
    forall n: nat :: AlternativeFails(text, i, lp, n)
  }

  /** `text.match(re)` for a labelled pattern: nothing exactly when the pattern matches
      nowhere; otherwise the value of the first alternative that matches at the leftmost
      start where one does, the longest value at the start the separator search reaches
      first. */
  lemma LabelledMatchIsLeftmost(text: string, lp: LabelPattern)
    requires LabelsStartWithLetter(lp)
    ensures MatchOf(text, Labelled(lp)).None? <==> forall i: nat :: NoMatchAt(text, i, lp)
    ensures MatchOf(text, Labelled(lp)).Some? ==>
      exists i: nat, n: nat, p: nat, e: nat ::
        && FirstAlternative(text, i, lp, 0, n, p, e)
        && MatchOf(text, Labelled(lp)).value == text[p..e]
        && forall i': nat :: i' < i ==> NoMatchAt(text, i', lp)
  {
    var r := FirstLabelled(text, lp, 0);
    if r.None? {
      NoMatchAnywhere(text, lp);
    } else {
      LeftmostMatchFound(text, lp);
      var i: nat, n: nat :| FirstAlternative(text, i, lp, 0, n, r.value.0, r.value.1)
        && forall i': nat :: i' < i ==> NoMatchAt(text, i', lp);
      assert !AlternativeFails(text, i, lp, n);
      assert !NoMatchAt(text, i, lp);
    }
  }

  /** An attempt at a start within the text fails exactly when no alternative matches
      there. */
  lemma AttemptFailsExactly(text: string, i: nat, lp: LabelPattern)
    requires LabelsStartWithLetter(lp) && i <= |text|
    ensures LabelledAt(text, i, lp, 0).None? <==> NoMatchAt(text, i, lp)
  {
    LabelledAtIsFirstAlternative(text, i, lp, 0);
  }

  /** When the scan over the starts finds nothing, nothing matches anywhere. */
  lemma NoMatchAnywhere(text: string, lp: LabelPattern)
    requires LabelsStartWithLetter(lp) && FirstLabelled(text, lp, 0).None?
    ensures forall i: nat :: NoMatchAt(text, i, lp)
  {
    FirstLabelledIsFirstSuccess(text, lp, 0);
    forall i: nat ensures NoMatchAt(text, i, lp) {
      if i <= |text| {
        AttemptFailsExactly(text, i, lp);
      } else {
        NoMatchPastEnd(text, i, lp);
      }
    }
  }

  /** When the scan over the starts finds a value, it is the first alternative's at the
      leftmost start where one matches. */
  lemma LeftmostMatchFound(text: string, lp: LabelPattern)
    requires LabelsStartWithLetter(lp) && FirstLabelled(text, lp, 0).Some?
    ensures var v := FirstLabelled(text, lp, 0).value;
      exists i: nat, n: nat ::
        && FirstAlternative(text, i, lp, 0, n, v.0, v.1)
        && forall i': nat :: i' < i ==> NoMatchAt(text, i', lp)
  {
    var r := FirstLabelled(text, lp, 0);
    var attempts := Attempts(text, lp);
    FirstLabelledIsFirstSuccess(text, lp, 0);
    var i: nat :| i <= |text| && FirstSuccess(attempts, 0, i) && LabelledAt(text, i, lp, 0) == r;
    LabelledAtIsFirstAlternative(text, i, lp, 0);
    forall i': nat | i' < i ensures NoMatchAt(text, i', lp) {
      assert attempts(i').None?;
      AttemptFailsExactly(text, i', lp);
    }
  }

  /** No attempt starting past the end of the text matches. */
  lemma NoMatchPastEnd(text: string, i: nat, lp: LabelPattern)
    requires |text| < i
    ensures NoMatchAt(text, i, lp)
  {
  }

  /** Which patterns match, and on what; `MatchOf` for one text. */
  type Hits = Pattern -> Option<string>

  function HitsOf(text: string): Hits {
    p => MatchOf(text, p)
  }

  /** What `match[1]` reads off a successful match: the capture, or nothing at all. */
  datatype Capture = Group(value: string) | NoGroup

  function CaptureFrom(p: Pattern, m: string): Capture {
    if HasGroup(p) then Group(m) else NoGroup
  }

  /** Pattern `k` is the first of the list that matches. */
  predicate IsFirstHit(hits: Hits, patterns: seq<Pattern>, k: nat) {
    && k < |patterns| && hits(patterns[k]).Some?
    && forall j :: 0 <= j < k ==> hits(patterns[j]).None?
  }

  /** The first pattern of the list that matches, as `for ... { if (match) break; }`,
      reduced to what `match[1]` reads. */
  function FirstCapture(hits: Hits, patterns: seq<Pattern>): (r: Option<Capture>)
    ensures r.None? <==> forall k :: 0 <= k < |patterns| ==> hits(patterns[k]).None?
    ensures r.Some? ==> exists k: nat :: IsFirstHit(hits, patterns, k) && r.value == CaptureFrom(patterns[k], hits(patterns[k]).value)
  {
    match FindIndex(patterns, p => hits(p).Some?)
    case None => None
    case Some(k) =>
      assert IsFirstHit(hits, patterns, k);
      Some(CaptureFrom(patterns[k], hits(patterns[k]).value))
  }

  /** A list of patterns with groups yields a capture whenever it matches. */
  lemma GroupedNeverThrow(hits: Hits, patterns: seq<Pattern>)
    requires forall k :: 0 <= k < |patterns| ==> HasGroup(patterns[k])
    ensures FirstCapture(hits, patterns) != Some(NoGroup)
  {
  }

  /** A list of patterns without groups never does. */
  lemma UngroupedAlwaysThrow(hits: Hits, patterns: seq<Pattern>)
    requires forall k :: 0 <= k < |patterns| ==> !HasGroup(patterns[k])
    ensures FirstCapture(hits, patterns).Some? ==> FirstCapture(hits, patterns) == Some(NoGroup)
  {
  }

  // ---------------------------------------------------------------------------
  // the table

  function Label(alternatives: seq<seq<string>>, value: ValueKind): Pattern {
    Labelled(LabelPattern(alternatives, true, value))
  }

  const NomPatterns: seq<Pattern> := [Label([["nom"]], NameWord), Label([["last", "name"]], NameWord)]

  const PrenomPatterns: seq<Pattern> := [Label([["prénom"]], NameWord), Label([["first", "name"]], NameWord)]

  const EmailPatterns: seq<Pattern> := [Whole(EmailWhole, true)]

  /** `(?:\+?33|0)[1-9](?:[\s.-]?\d{2}){4}` and `\+?1?\d{10}`, neither with a group. */
  const TelephonePatterns: seq<Pattern> := [Whole(FrenchPhoneWhole, false), Whole(TenDigitsWhole, false)]

  const AdressePatterns: seq<Pattern> := [Label([["adresse"]], AddressSpan), Label([["address"]], AddressSpan)]

  const MetiersPatterns: seq<Pattern> := [Label([["poste"], ["métier"], ["profession"]], RestOfLine)]

  const CompetencesPatterns: seq<Pattern> :=
    [Labelled(LabelPattern([["compétences"], ["skills"]], false, RestOfLine))]

  /** The keys of the result object. */
  datatype Key = Nom | Prenom | Email | Telephone | Adresse | Metiers | Competences | RawText

  type Entry = (Key, seq<Pattern>)

  /** `EXTRACTION_PATTERNS`, in the order `Object.entries` lists it. */
  const Table: seq<Entry> := [
    (Nom, NomPatterns), (Prenom, PrenomPatterns), (Email, EmailPatterns),
    (Telephone, TelephonePatterns), (Adresse, AdressePatterns),
    (Metiers, MetiersPatterns), (Competences, CompetencesPatterns)
  ]

  /** The table has distinct keys, none of them `raw_text`, and every list but the
      telephone one has groups. */
  lemma TableShape()
    ensures |Table| == 7 && Table[3] == (Telephone, TelephonePatterns)
    ensures forall a, b :: 0 <= a < b < |Table| ==> Table[a].0 != Table[b].0
    ensures forall n :: 0 <= n < |Table| ==> Table[n].0 != RawText
    ensures forall n, k :: 0 <= n < |Table| && n != 3 && 0 <= k < |Table[n].1| ==> HasGroup(Table[n].1[k])
    ensures forall k :: 0 <= k < |TelephonePatterns| ==> !HasGroup(TelephonePatterns[k])
  {
  }

  /** Every label of the table is made of words that start with a letter, so each
      labelled pattern of the table matches as `LabelledMatchIsLeftmost` describes. */
  lemma TableLabelsStartWithLetter()
    ensures forall n, k :: 0 <= n < |Table| && 0 <= k < |Table[n].1| && Table[n].1[k].Labelled? ==>
      LabelsStartWithLetter(Table[n].1[k].lp)
  {
  }

  /** The key of an entry with what its patterns gave. */
  type Outcome = (Key, Option<Capture>)

  /** Each entry's key with the outcome of its first matching pattern. */
  function Outcomes(hits: Hits, entries: seq<Entry>): (r: seq<Outcome>)
    ensures |r| == |entries|
    ensures forall n :: 0 <= n < |r| ==> r[n] == (entries[n].0, FirstCapture(hits, entries[n].1))
  {
    seq(|entries|, n requires 0 <= n < |entries| => (entries[n].0, FirstCapture(hits, entries[n].1)))
  }

  predicate DistinctKeys(outcomes: seq<Outcome>) {
    forall a, b :: 0 <= a < b < |outcomes| ==> outcomes[a].0 != outcomes[b].0
  }

  /** What the parse records for one outcome: the trimmed capture when a pattern matched
      with a group, and no key otherwise. */
  predicate Reports(o: Outcome, fields: map<Key, string>) {
    match o.1
    case Some(Group(v)) => o.0 in fields && fields[o.0] == Trim(v)
    case _ => o.0 !in fields
  }

  /** The `forEach` over the entries, from `fields` on: a match without a group throws
      when its missing group is trimmed, and the exception leaves the function. */
  function Record(outcomes: seq<Outcome>, fields: map<Key, string>): (r: Result<map<Key, string>>)
    ensures r.Failure? <==> exists n :: 0 <= n < |outcomes| && outcomes[n].1 == Some(NoGroup)
    decreases |outcomes|
  {
    if outcomes == [] then Success(fields)
    else
      var o := outcomes[0];
      assert forall n :: 1 <= n < |outcomes| ==> outcomes[n] == outcomes[1..][n - 1];
      match o.1
      case None => Record(outcomes[1..], fields)
      case Some(NoGroup) => Failure("TypeError: Cannot read properties of undefined (reading 'trim')")
      case Some(Group(v)) => Record(outcomes[1..], fields[o.0 := Trim(v)])
  }

  /** With distinct keys, none of them set beforehand, a successful run reports every
      outcome, keeps what was there and adds nothing else. */
  lemma RecordReports(outcomes: seq<Outcome>, fields: map<Key, string>)
    requires DistinctKeys(outcomes)
    requires forall n :: 0 <= n < |outcomes| ==> outcomes[n].0 !in fields
    ensures var r := Record(outcomes, fields);
      r.Success? ==> forall n :: 0 <= n < |outcomes| ==> Reports(outcomes[n], r.value)
    ensures var r := Record(outcomes, fields);
      r.Success? ==> forall k :: k in fields ==> k in r.value && r.value[k] == fields[k]
    ensures var r := Record(outcomes, fields);
      r.Success? ==> forall k :: k in r.value ==> k in fields || exists n :: 0 <= n < |outcomes| && outcomes[n].0 == k
  {
    assert forall k :: k in fields ==> KeyUnused(outcomes, k);
    RecordKeeps(outcomes, fields);
    RecordAddsOnlyKeys(outcomes, fields);
    RecordReportsEach(outcomes, fields);
  }

  /** No outcome has the key `k`. */
  predicate KeyUnused(outcomes: seq<Outcome>, k: Key) {
    forall n :: 0 <= n < |outcomes| ==> outcomes[n].0 != k
  }

  /** A successful run keeps every field whose key no outcome has. */
  lemma {:induction false} RecordKeeps(outcomes: seq<Outcome>, fields: map<Key, string>)
    ensures var r := Record(outcomes, fields);
      r.Success? ==> forall k :: k in fields && KeyUnused(outcomes, k) ==> k in r.value && r.value[k] == fields[k]
    decreases |outcomes|
  {
    if outcomes != [] {
      var o := outcomes[0];
      var rest := outcomes[1..];
      assert forall n :: 0 <= n < |rest| ==> rest[n] == outcomes[n + 1];
      assert forall k :: KeyUnused(outcomes, k) ==> KeyUnused(rest, k) && o.0 != k;
      match o.1
      case None => RecordKeeps(rest, fields);
      case Some(NoGroup) =>
      case Some(Group(v)) => RecordKeeps(rest, fields[o.0 := Trim(v)]);
    }
  }

  /** Setting `key` leaves the other keys of the outcomes unset. */
  lemma RecordAddsNothingNew(rest: seq<Outcome>, fields: map<Key, string>, key: Key, v: string)
    requires forall n :: 0 <= n < |rest| ==> rest[n].0 !in fields
    ensures forall n :: 0 <= n < |rest| && rest[n].0 != key ==> rest[n].0 !in fields[key := v]
  {
  }

  /** A successful run adds no key but those of the outcomes. */
  lemma {:induction false} RecordAddsOnlyKeys(outcomes: seq<Outcome>, fields: map<Key, string>)
    ensures var r := Record(outcomes, fields);
      r.Success? ==> forall k :: k in r.value ==> k in fields || exists n :: 0 <= n < |outcomes| && outcomes[n].0 == k
    decreases |outcomes|
  {
    if outcomes != [] {
      var o := outcomes[0];
      var rest := outcomes[1..];
      assert forall n :: 0 <= n < |rest| ==> rest[n] == outcomes[n + 1];
      match o.1
      case None => RecordAddsOnlyKeys(rest, fields);
      case Some(NoGroup) =>
      case Some(Group(v)) => RecordAddsOnlyKeys(rest, fields[o.0 := Trim(v)]);
    }
  }

  /** With distinct keys, none of them set beforehand, a successful run reports every
      outcome. */
  lemma {:induction false} RecordReportsEach(outcomes: seq<Outcome>, fields: map<Key, string>)
    requires DistinctKeys(outcomes)
    requires forall n :: 0 <= n < |outcomes| ==> outcomes[n].0 !in fields
    ensures var r := Record(outcomes, fields);
      r.Success? ==> forall n :: 0 <= n < |outcomes| ==> Reports(outcomes[n], r.value)
    decreases |outcomes|
  {
    if outcomes != [] {
      var o := outcomes[0];
      var rest := outcomes[1..];
      assert forall n :: 0 <= n < |rest| ==> rest[n] == outcomes[n + 1];
      assert DistinctKeys(rest);
      assert KeyUnused(rest, o.0);
      match o.1
      case None =>
        var r := Record(rest, fields);
        RecordReportsEach(rest, fields);
        RecordLeavesUnset(rest, fields, o.0);
        if r.Success? {
          ReportsFirstAndRest(outcomes, r.value);
        }
      case Some(NoGroup) =>
      case Some(Group(v)) =>
        var fields' := fields[o.0 := Trim(v)];
        var r := Record(rest, fields');
        RecordAddsNothingNew(rest, fields, o.0, Trim(v));
        RecordReportsEach(rest, fields');
        RecordKeeps(rest, fields');
        if r.Success? {
          ReportsFirstAndRest(outcomes, r.value);
        }
    }
  }

  /** A key that no outcome has and that was not set stays unset. */
  lemma RecordLeavesUnset(outcomes: seq<Outcome>, fields: map<Key, string>, k: Key)
    requires KeyUnused(outcomes, k) && k !in fields
    ensures var r := Record(outcomes, fields); r.Success? ==> k !in r.value
  {
    RecordAddsOnlyKeys(outcomes, fields);
  }

  /** Reporting the first outcome and each of the rest is reporting them all. */
  lemma ReportsFirstAndRest(outcomes: seq<Outcome>, fields: map<Key, string>)
    requires outcomes != [] && Reports(outcomes[0], fields)
    requires forall n :: 0 <= n < |outcomes[1..]| ==> Reports(outcomes[1..][n], fields)
    ensures forall n :: 0 <= n < |outcomes| ==> Reports(outcomes[n], fields)
  {
    forall n | 0 < n < |outcomes| ensures Reports(outcomes[n], fields) {
      assert outcomes[n] == outcomes[1..][n - 1];
    }
  }

  /** `parseExtractedText`: the raw text under `raw_text`, then the table. */
  function ParseExtractedText(text: string): (r: Result<map<Key, string>>)
    ensures r.Failure? <==> exists n :: 0 <= n < |Table| && FirstCapture(HitsOf(text), Table[n].1) == Some(NoGroup)
  {
    Record(Outcomes(HitsOf(text), Table), map[RawText := text])
  }

  /** A successful parse keeps the text under `raw_text` and reports every key of the
      table: present with the trimmed capture exactly when a pattern of its list matched
      with a group. */
  lemma ParseExtractedTextReports(text: string)
    ensures var r := ParseExtractedText(text);
      r.Success? ==> RawText in r.value && r.value[RawText] == text
    ensures var r := ParseExtractedText(text);
      r.Success? ==> forall n :: 0 <= n < |Table| ==> Reports((Table[n].0, FirstCapture(HitsOf(text), Table[n].1)), r.value)
  {
    var outcomes := Outcomes(HitsOf(text), Table);
    TableShape();
    assert DistinctKeys(outcomes);
    RecordReports(outcomes, map[RawText := text]);
  }

  /** A parse that returns always has at least one key, `raw_text`, so the caller's
      "nothing extracted" branch is never taken. */
  lemma ParsedNeverEmpty(text: string)
    ensures var r := ParseExtractedText(text);
      r.Success? ==> |r.value.Keys| > 0
  {
    ParseExtractedTextReports(text);
    var r := ParseExtractedText(text);
    if r.Success? {
      assert RawText in r.value.Keys;
    }
  }

  // ---------------------------------------------------------------------------
  // when the parse throws

  /** The text holds a match of one of the two telephone patterns. */
  predicate HasPhone(text: string) {
    || (exists i, j :: 0 <= i <= j <= |text| && FrenchPhoneLooseAccepts(text, i, j))
    || (exists i, j :: 0 <= i <= j <= |text| && TenDigitsAccepts(text, i, j))
  }

  /** A list of the two telephone patterns, grouped or not, matches exactly when the text
      holds a phone number. */
  lemma PhoneListMatches(text: string, patterns: seq<Pattern>)
    requires |patterns| == 2 && patterns[0].Whole? && patterns[1].Whole?
    requires patterns[0].kind == FrenchPhoneWhole && patterns[1].kind == TenDigitsWhole
    ensures FirstCapture(HitsOf(text), patterns).Some? <==> HasPhone(text)
  {
    FrenchPhoneLooseGreedy();
    TenDigitsRecognises();
    MatchTextAccepted(text, FrenchPhoneLooseAt, FrenchPhoneLooseAccepts);
    MatchTextAccepted(text, TenDigitsAt, TenDigitsAccepts);
    assert HitsOf(text)(patterns[0]) == MatchText(text, FrenchPhoneLooseAt);
    assert HitsOf(text)(patterns[1]) == MatchText(text, TenDigitsAt);
  }

  /** The parse throws exactly when the text holds a phone number: the telephone patterns
      are the only ones without a group, and any match of theirs is read through
      `match[1]`. */
  lemma ParseFailsOnPhone(text: string)
    ensures ParseExtractedText(text).Failure? <==> HasPhone(text)
  {
    var hits := HitsOf(text);
    TableShape();
    forall n | 0 <= n < |Table| && n != 3 ensures FirstCapture(hits, Table[n].1) != Some(NoGroup) {
      GroupedNeverThrow(hits, Table[n].1);
    }
    PhoneListMatches(text, TelephonePatterns);
    UngroupedAlwaysThrow(hits, TelephonePatterns);
  }

  /** The telephone patterns wrapped in a group, as the trimmed `match[1]` expects. */
  const IntendedTelephonePatterns: seq<Pattern> := [Whole(FrenchPhoneWhole, true), Whole(TenDigitsWhole, true)]

  const IntendedTable: seq<Entry> := Table[3 := (Telephone, IntendedTelephonePatterns)]

  /** The corrected table differs from the original in the telephone groups only, so all
      its lists have groups. */
  lemma IntendedTableShape()
    ensures |IntendedTable| == 7 && IntendedTable[3] == (Telephone, IntendedTelephonePatterns)
    ensures forall a, b :: 0 <= a < b < |IntendedTable| ==> IntendedTable[a].0 != IntendedTable[b].0
    ensures forall n :: 0 <= n < |IntendedTable| ==> IntendedTable[n].0 != RawText
    ensures forall n, k :: 0 <= n < |IntendedTable| && 0 <= k < |IntendedTable[n].1| ==> HasGroup(IntendedTable[n].1[k])
  {
    TableShape();
  }

  /** The parse with grouped telephone patterns: it never throws. */
  function ParseExtractedTextIntended(text: string): (r: Result<map<Key, string>>)
    ensures r.Success?
  {
    IntendedTableShape();
    forall n | 0 <= n < |IntendedTable| ensures FirstCapture(HitsOf(text), IntendedTable[n].1) != Some(NoGroup) {
      GroupedNeverThrow(HitsOf(text), IntendedTable[n].1);
    }
    Record(Outcomes(HitsOf(text), IntendedTable), map[RawText := text])
  }

  /** With grouped telephone patterns the text stays under `raw_text`, and the telephone
      key is present exactly when the text holds a phone number. */
  lemma IntendedReportsPhone(text: string)
    ensures var r := ParseExtractedTextIntended(text);
      && r.Success? && RawText in r.value && r.value[RawText] == text
      && (Telephone in r.value <==> HasPhone(text))
  {
    var outcomes := Outcomes(HitsOf(text), IntendedTable);
    IntendedTableShape();
    assert DistinctKeys(outcomes);
    RecordReports(outcomes, map[RawText := text]);
    PhoneListMatches(text, IntendedTelephonePatterns);
    GroupedNeverThrow(HitsOf(text), IntendedTelephonePatterns);
    assert outcomes[3] == (Telephone, FirstCapture(HitsOf(text), IntendedTelephonePatterns));
  }

  // ---------------------------------------------------------------------------
  // extractData

  /** The decoder `extractData` picks for a MIME type: pdf-lib for PDF, mammoth for DOCX,
      and UTF-8 decoding for anything else. */
  function DecoderFor(fileType: string): (d: Decoder)
    ensures d == PdfLib <==> fileType == "application/pdf"
    ensures d == Mammoth <==> fileType == "application/vnd.openxmlformats-officedocument.wordprocessingml.document"
    ensures d == Utf8Text || d == PdfLib || d == Mammoth
  {
    if fileType == "application/pdf" then PdfLib
    else if fileType == "application/vnd.openxmlformats-officedocument.wordprocessingml.document" then Mammoth
    else Utf8Text
  }

  /** `extractData`: the decoded text, parsed; `decode` stands for the decoders, each of
      which yields the empty string when it fails. */
  function ExtractData(fileType: string, decode: Decoder -> string): (r: Result<map<Key, string>>)
    ensures r.Failure? <==> HasPhone(decode(DecoderFor(fileType)))
  {
    ParseFailsOnPhone(decode(DecoderFor(fileType)));
    ParseExtractedText(decode(DecoderFor(fileType)))
  }
}
