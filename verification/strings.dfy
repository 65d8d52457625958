/**
 * The string and list combinators every extraction variant is built from:
 * `split`/`join` on one character, `trim`, line splitting, `slice(0, n)`,
 * `includes`, `toLowerCase`, `filter`, `find`, `Array.from(new Set(...))`
 * and `replace(/\s+/g, " ")`.
 */
module Strings {
  import opened Common
  import opened Chars

  // ---------------------------------------------------------------------------
  // split / join on a one-character separator

  /** `parts.join(sep)`. */
  function Join(parts: seq<string>, sep: char): string
  {
    if |parts| == 0 then []
    else if |parts| == 1 then parts[0]
    else parts[0] + [sep] + Join(parts[1..], sep)
  }

  /** `s.split(sep)`: the pieces between occurrences of `sep`; never empty, and
      joining the pieces back with `sep` gives `s` again. */
  function Split(s: string, sep: char): (r: seq<string>)
    ensures |r| >= 1
    ensures forall k :: 0 <= k < |r| ==> sep !in r[k]
    ensures Join(r, sep) == s
    decreases |s|
  {
    if s == [] then [[]]
    else
      var rest := Split(s[1..], sep);
      if s[0] == sep then
        assert Join([[]] + rest, sep) == [] + [sep] + Join(rest, sep);
        [[]] + rest
      else
        var r := [[s[0]] + rest[0]] + rest[1..];
        assert r[1..] == rest[1..];
        r
  }

  /** Splitting a string that does not contain the separator gives the string alone. */
  lemma {:induction false} SplitWithoutSeparator(s: string, sep: char)
    ensures sep !in s ==> Split(s, sep) == [s]
    decreases |s|
  {
    if s != [] && sep !in s {
      SplitWithoutSeparator(s[1..], sep);
    }
  }

  /** Splitting `a + [sep] + b`, where `a` has no separator, gives `a` then the pieces of `b`. */
  lemma {:induction false} SplitAfterPiece(a: string, sep: char, b: string)
    requires sep !in a
    ensures Split(a + [sep] + b, sep) == [a] + Split(b, sep)
    decreases |a|
  {
    if a == [] {
      assert a + [sep] + b == [sep] + b;
      assert ([sep] + b)[1..] == b;
    } else {
      assert (a + [sep] + b)[1..] == a[1..] + [sep] + b;
      SplitAfterPiece(a[1..], sep, b);
      assert [a[0]] + a[1..] == a;
    }
  }

  /** The other round trip: separator-free pieces survive a join followed by a split. */
  lemma {:induction false} SplitJoin(parts: seq<string>, sep: char)
    requires |parts| >= 1
    requires forall k :: 0 <= k < |parts| ==> sep !in parts[k]
    ensures Split(Join(parts, sep), sep) == parts
    decreases |parts|
  {
    if |parts| == 1 {
      SplitWithoutSeparator(parts[0], sep);
    } else {
      SplitJoin(parts[1..], sep);
      SplitAfterPiece(parts[0], sep, Join(parts[1..], sep));
      assert [parts[0]] + parts[1..] == parts;
    }
  }

  /** `s.split(sep)[0]`: the text before the first `sep` (all of `s` when there is none). */
  function BeforeFirst(s: string, sep: char): (r: string)
    ensures sep !in r
    ensures |r| <= |s| && r == s[..|r|]
    ensures |r| < |s| ==> s[|r|] == sep
    ensures sep !in s ==> r == s
  {
    var parts := Split(s, sep);
    JoinFirstPiece(parts, sep);
    SplitWithoutSeparator(s, sep);
    parts[0]
  }

  /** `s.split(sep).pop()`: the text after the last `sep` (all of `s` when there is none). */
  function AfterLast(s: string, sep: char): (r: string)
    ensures sep !in r
    ensures |r| <= |s| && r == s[|s| - |r|..]
    ensures |r| < |s| ==> s[|s| - |r| - 1] == sep
    ensures sep !in s ==> r == s
  {
    var parts := Split(s, sep);
    JoinLastPiece(parts, sep);
    SplitWithoutSeparator(s, sep);
    parts[|parts| - 1]
  }

  /** `s` is `t`, or ends in `sep` followed by `t`. */
  predicate EndsWithPiece(s: string, sep: char, t: string) {
    s == t || (|t| < |s| && s[|s| - |t| - 1..] == [sep] + t)
  }

  /** The last piece is `t` exactly when `s` is `t` or ends in `sep` and `t`. */
  lemma AfterLastIs(s: string, sep: char, t: string)
    requires sep !in t
    ensures AfterLast(s, sep) == t <==> EndsWithPiece(s, sep, t)
  {
    var r := AfterLast(s, sep);
    if r == t && |r| < |s| {
      assert s[|s| - |t| - 1..] == [s[|s| - |t| - 1]] + s[|s| - |t|..];
    }
    if EndsWithPiece(s, sep, t) {
      AfterLastOfPiece(s, sep, t);
    }
  }

  lemma AfterLastOfPiece(s: string, sep: char, t: string)
    requires sep !in t && EndsWithPiece(s, sep, t)
    ensures AfterLast(s, sep) == t
  {
    var r := AfterLast(s, sep);
    if s != t {
      var x := |s| - |t| - 1;
      assert s[x] == ([sep] + t)[0];
      assert |r| == |t|;
      assert r == s[|s| - |t|..] == t;
    }
  }

  lemma {:induction false} JoinFirstPiece(parts: seq<string>, sep: char)
    requires |parts| >= 1
    ensures var j := Join(parts, sep);
      |parts[0]| <= |j| && j[..|parts[0]|] == parts[0] && (|parts| > 1 ==> j[|parts[0]|] == sep)
  {
  }

  lemma {:induction false} JoinLastPiece(parts: seq<string>, sep: char)
    requires |parts| >= 1
    ensures var j := Join(parts, sep); var l := parts[|parts| - 1];
      |l| <= |j| && j[|j| - |l|..] == l && (|parts| > 1 ==> |l| < |j| && j[|j| - |l| - 1] == sep)
    decreases |parts|
  {
    if |parts| > 1 {
      JoinLastPiece(parts[1..], sep);
    }
  }

  // ---------------------------------------------------------------------------
  // trim

  /** `trimStart`. */
  function TrimStart(s: string): (r: string)
    ensures |r| <= |s| && r == s[|s| - |r|..]
    ensures forall k :: 0 <= k < |s| - |r| ==> IsJsSpace(s[k])
    ensures r == [] || !IsJsSpace(r[0])
  {
    if s != [] && IsJsSpace(s[0]) then TrimStart(s[1..]) else s
  }

  /** `trimEnd`. */
  function TrimEnd(s: string): (r: string)
    ensures |r| <= |s| && r == s[..|r|]
    ensures forall k :: |r| <= k < |s| ==> IsJsSpace(s[k])
    ensures r == [] || !IsJsSpace(r[|r| - 1])
  {
    if s != [] && IsJsSpace(s[|s| - 1]) then TrimEnd(s[..|s| - 1]) else s
  }

  /** `r` is `s[p..]` cut to its own length, every character of `s` outside it is
      white space, and `r` itself neither starts nor ends with white space. */
  ghost predicate IsTrimAt(s: string, p: nat, r: string) {
    && p + |r| <= |s|
    && r == s[p..p + |r|]
    && (forall k :: 0 <= k < p ==> IsJsSpace(s[k]))
    && (forall k :: p + |r| <= k < |s| ==> IsJsSpace(s[k]))
    && (r == [] || (!IsJsSpace(r[0]) && !IsJsSpace(r[|r| - 1])))
  }

  /** JavaScript's `Boolean(s)` on a string: true exactly for a non-empty one. */
  predicate IsNonEmpty(s: string) { s != [] }

  /** `r` is `s` with its leading and trailing white space removed. */
  ghost predicate IsTrimOf(s: string, r: string) {
    exists p: nat :: IsTrimAt(s, p, r)
  }

  /** `String.prototype.trim`. */
  function Trim(s: string): (r: string)
    ensures IsTrimOf(s, r)
  {
    var a := TrimStart(s);
    var r := TrimEnd(a);
    TrimParts(s, a, r);
    r
  }

  /** What `trimStart` and then `trimEnd` promise, together, cut `s` down to its
      trimmed form. */
  lemma TrimParts(s: string, a: string, r: string)
    requires |a| <= |s| && a == s[|s| - |a|..] && (a == [] || !IsJsSpace(a[0]))
    requires forall k :: 0 <= k < |s| - |a| ==> IsJsSpace(s[k])
    requires |r| <= |a| && r == a[..|r|] && (r == [] || !IsJsSpace(r[|r| - 1]))
    requires forall k :: |r| <= k < |a| ==> IsJsSpace(a[k])
    ensures IsTrimAt(s, |s| - |a|, r)
  {
    var p := |s| - |a|;
    assert r == s[p..p + |r|];
    forall k | p + |r| <= k < |s| ensures IsJsSpace(s[k]) {
      assert s[k] == a[k - p];
    }
    if r != [] {
      assert r[0] == a[0];
    }
  }

  /** There is only one trimmed form of a string: `IsTrimOf` pins `Trim` down. */
  lemma TrimUnique(s: string, r: string)
    requires IsTrimOf(s, r)
    ensures r == Trim(s)
  {
    var t := Trim(s);
    var p: nat :| IsTrimAt(s, p, r);
    var q: nat :| IsTrimAt(s, q, t);
    TrimAtUnique(s, p, r, q, t);
  }

  /** Two trimmed forms of the same string, wherever they start, are equal. */
  lemma TrimAtUnique(s: string, p: nat, r: string, q: nat, t: string)
    requires IsTrimAt(s, p, r) && IsTrimAt(s, q, t)
    ensures r == t
  {
    if r != [] && t != [] {
      assert s[p] == r[0] && s[q] == t[0];
      assert p == q;
      assert s[p + |r| - 1] == r[|r| - 1] && s[q + |t| - 1] == t[|t| - 1];
      assert |r| == |t|;
    }
  }

  /** Trimming twice is trimming once. */
  lemma TrimIdempotent(s: string)
    ensures Trim(Trim(s)) == Trim(s)
  {
    var t := Trim(s);
    assert t == t[0..|t|];
    assert IsTrimAt(t, 0, t);
    TrimUnique(t, t);
  }

  /** A white-space-free string is its own trim. */
  lemma TrimNoSpace(s: string)
    requires forall k :: 0 <= k < |s| ==> !IsJsSpace(s[k])
    ensures Trim(s) == s
  {
    assert s == s[0..|s|];
    assert IsTrimAt(s, 0, s);
    TrimUnique(s, s);
  }

  // ---------------------------------------------------------------------------
  // lines

  /** `s.split('\n')` (also `s.split(/\n/)`). */
  function Lines(s: string): (r: seq<string>)
    ensures |r| >= 1 && Join(r, '\n') == s
    ensures forall k :: 0 <= k < |r| ==> '\n' !in r[k]
  {
    Split(s, '\n')
  }

  /** The line without the one carriage return that `\r?\n` takes along with the line feed. */
  function DropCarriageReturn(line: string): (r: string)
    ensures r == line || (line == r + ['\r'])
  {
    if line != [] && line[|line| - 1] == '\r' then line[..|line| - 1] else line
  }

  /** `s.split(/\r?\n/)`: the `\n`-lines, each but the last losing one trailing `\r`. */
  function LinesCrLf(s: string): (r: seq<string>)
    ensures |r| == |Lines(s)|
    ensures forall k :: 0 <= k < |r| ==> '\n' !in r[k]
    ensures r[|r| - 1] == Lines(s)[|r| - 1]
    ensures forall k :: 0 <= k < |r| - 1 ==> r[k] == DropCarriageReturn(Lines(s)[k])
  {
    var ls := Lines(s);
    seq(|ls|, k requires 0 <= k < |ls| => if k < |ls| - 1 then DropCarriageReturn(ls[k]) else ls[k])
  }

  // ---------------------------------------------------------------------------
  // case and substrings

  /** `s.toLowerCase()`. */
  function LowerString(s: string): (r: string)
    ensures |r| == |s| && forall k :: 0 <= k < |s| ==> r[k] == Lower(s[k])
  {
    seq(|s|, k requires 0 <= k < |s| => Lower(s[k]))
  }

  /** `t` occurs in `s` starting at index `k`. */
  predicate OccursAt(s: string, t: string, k: nat) {
    k + |t| <= |s| && s[k..k + |t|] == t
  }

  /** `s.includes(t)`. */
  predicate Contains(s: string, t: string) {
    exists k: nat | k <= |s| :: OccursAt(s, t, k)
  }

  /** `t` occurs in `s` at index `k` under the `i` flag. */
  predicate OccursIgnoringCaseAt(s: string, t: string, k: nat) {
    k + |t| <= |s| && forall n :: 0 <= n < |t| ==> EqualsIgnoringCase(s[k + n], t[n])
  }

  /** `/t/i.test(s)` for a literal `t`. */
  predicate ContainsIgnoringCase(s: string, t: string) {
    exists k: nat | k <= |s| :: OccursIgnoringCaseAt(s, t, k)
  }

  /** `s.slice(0, n)`. */
  function Prefix<T>(s: seq<T>, n: nat): (r: seq<T>)
    ensures |r| == Min(n, |s|) && r == s[..|r|]
  {
    s[..Min(n, |s|)]
  }

  // ---------------------------------------------------------------------------
  // lists

  /** `a` is `b` with some elements left out, the rest kept in order. */
  predicate IsSubsequence<T(==)>(a: seq<T>, b: seq<T>)
    decreases |b|
  {
    a == [] || (b != [] && ((a[0] == b[0] && IsSubsequence(a[1..], b[1..])) || IsSubsequence(a, b[1..])))
  }

  lemma {:induction false} SubsequenceTransitive<T>(a: seq<T>, b: seq<T>, c: seq<T>)
    requires IsSubsequence(a, b) && IsSubsequence(b, c)
    ensures IsSubsequence(a, c)
    decreases |c|
  {
    if a != [] {
      if a[0] == b[0] && IsSubsequence(a[1..], b[1..]) {
        if b[0] == c[0] && IsSubsequence(b[1..], c[1..]) {
          SubsequenceTransitive(a[1..], b[1..], c[1..]);
        } else {
          SubsequenceTransitive(a, b, c[1..]);
        }
      } else {
        if b[0] == c[0] && IsSubsequence(b[1..], c[1..]) {
          SubsequenceTransitive(a, b[1..], c[1..]);
        } else {
          SubsequenceTransitive(a, b, c[1..]);
        }
      }
    }
  }

  lemma {:induction false} SubsequenceMap<T, U>(a: seq<T>, b: seq<T>, f: T -> U)
    requires IsSubsequence(a, b)
    ensures IsSubsequence(Map(a, f), Map(b, f))
    decreases |b|
  {
    if a != [] {
      assert Map(a, f)[1..] == Map(a[1..], f) && Map(b, f)[1..] == Map(b[1..], f);
      if a[0] == b[0] && IsSubsequence(a[1..], b[1..]) {
        SubsequenceMap(a[1..], b[1..], f);
      } else {
        SubsequenceMap(a, b[1..], f);
      }
    }
  }

  lemma {:induction false} PrefixIsSubsequence<T>(s: seq<T>, n: nat)
    ensures IsSubsequence(Prefix(s, n), s)
    decreases |s|
  {
    if Prefix(s, n) != [] {
      assert Prefix(s, n)[1..] == Prefix(s[1..], n - 1);
      PrefixIsSubsequence(s[1..], n - 1);
    }
  }

  predicate NoDuplicates<T(==)>(xs: seq<T>) {
    forall a, b :: 0 <= a < b < |xs| ==> xs[a] != xs[b]
  }

  /** `xs.filter(p)`. */
  function Filter<T(!new)>(xs: seq<T>, p: T -> bool): (r: seq<T>)
    ensures |r| <= |xs|
    ensures forall x :: x in r <==> x in xs && p(x)
    ensures IsSubsequence(r, xs)
    ensures NoDuplicates(xs) ==> NoDuplicates(r)
  {
    if xs == [] then []
    else
      var rest := Filter(xs[1..], p);
      assert xs == [xs[0]] + xs[1..];
      assert forall x :: x in xs <==> x == xs[0] || x in xs[1..];
      if p(xs[0]) then
        var r := [xs[0]] + rest;
        assert r[1..] == rest;
        assert NoDuplicates(xs) ==> xs[0] !in xs[1..];
        r
      else rest
  }

  /** `xs.map(f)`. */
  function Map<T, U>(xs: seq<T>, f: T -> U): (r: seq<U>)
    ensures |r| == |xs| && forall k :: 0 <= k < |xs| ==> r[k] == f(xs[k])
  {
    seq(|xs|, k requires 0 <= k < |xs| => f(xs[k]))
  }

  /** `xs.findIndex(p)`, with `None` for -1. */
  function FindIndex<T>(xs: seq<T>, p: T -> bool): (r: Option<nat>)
    ensures r.Some? ==> r.value < |xs| && p(xs[r.value]) && forall j :: 0 <= j < r.value ==> !p(xs[j])
    ensures r.None? ==> forall j :: 0 <= j < |xs| ==> !p(xs[j])
  {
    if xs == [] then None
    else if p(xs[0]) then Some(0)
    else match FindIndex(xs[1..], p)
      case None => None
      case Some(k) => Some(k + 1)
  }

  /** `xs.find(p)`, with `None` for `undefined`. */
  function Find<T>(xs: seq<T>, p: T -> bool): (r: Option<T>)
    ensures r.Some? ==> r.value in xs && p(r.value)
    ensures r.None? <==> forall x :: x in xs ==> !p(x)
    ensures r.Some? ==> exists k :: 0 <= k < |xs| && xs[k] == r.value && forall j :: 0 <= j < k ==> !p(xs[j])
  {
    match FindIndex(xs, p)
    case None => None
    case Some(k) => Some(xs[k])
  }

  /** `xs[0]` when the list is not empty. */
  function First<T>(xs: seq<T>): (r: Option<T>)
    ensures r.None? <==> xs == []
    ensures r.Some? ==> r.value == xs[0]
  {
    if xs == [] then None else Some(xs[0])
  }

  /** Index of the first occurrence of `x` in `xs`. */
  function IndexOf<T(==)>(xs: seq<T>, x: T): (r: nat)
    requires x in xs
    ensures r < |xs| && xs[r] == x && forall j :: 0 <= j < r ==> xs[j] != x
  {
    if xs[0] == x then 0 else 1 + IndexOf(xs[1..], x)
  }

  /** `Array.from(new Set(xs))` once the values in `seen` are already in the set. */
  function DedupFrom<T(==,!new)>(xs: seq<T>, seen: set<T>): (r: seq<T>)
    ensures NoDuplicates(r)
    ensures forall x :: x in r <==> x in xs && x !in seen
    ensures IsSubsequence(r, xs)
    ensures forall a, b :: 0 <= a < b < |r| ==> IndexOf(xs, r[a]) < IndexOf(xs, r[b])
  {
    if xs == [] then []
    else
      assert xs == [xs[0]] + xs[1..];
      assert forall x :: x in xs <==> x == xs[0] || x in xs[1..];
      if xs[0] in seen then
        var r := DedupFrom(xs[1..], seen);
        assert forall a :: 0 <= a < |r| ==> r[a] != xs[0];
        assert forall a :: 0 <= a < |r| ==> IndexOf(xs, r[a]) == 1 + IndexOf(xs[1..], r[a]);
        r
      else
        var rest := DedupFrom(xs[1..], seen + {xs[0]});
        var r := [xs[0]] + rest;
        assert r[1..] == rest;
        assert forall a :: 0 <= a < |rest| ==> rest[a] != xs[0];
        assert forall a :: 0 <= a < |rest| ==> IndexOf(xs, rest[a]) == 1 + IndexOf(xs[1..], rest[a]);
        assert forall a :: 1 <= a < |r| ==> r[a] == rest[a - 1];
        r
  }

  /** `Array.from(new Set(xs))`: the distinct values of `xs` in order of first occurrence. */
  function Dedup<T(==,!new)>(xs: seq<T>): (r: seq<T>)
    ensures NoDuplicates(r)
    ensures forall x :: x in r <==> x in xs
    ensures IsSubsequence(r, xs)
    ensures forall a, b :: 0 <= a < b < |r| ==> IndexOf(xs, r[a]) < IndexOf(xs, r[b])
  {
    DedupFrom(xs, {})
  }

  // ---------------------------------------------------------------------------
  // white-space runs

  /** `s` without its white-space characters. */
  function NonSpace(s: string): string {
    if s == [] then []
    else if IsJsSpace(s[0]) then NonSpace(s[1..])
    else [s[0]] + NonSpace(s[1..])
  }

  /** No two neighbouring characters are both white space. */
  predicate NoAdjacentSpaces(s: string) {
    forall k :: 0 <= k < |s| - 1 ==> !(IsJsSpace(s[k]) && IsJsSpace(s[k + 1]))
  }

  lemma {:induction false} NonSpaceOfLeadingSpace(s: string)
    ensures NonSpace(s) == NonSpace(TrimStart(s))
  {
    if s != [] && IsJsSpace(s[0]) {
      NonSpaceOfLeadingSpace(s[1..]);
    }
  }

  /** `s.replace(/\s+/g, " ")`: every maximal white-space run becomes one space. */
  function CollapseSpaces(s: string): (r: string)
    ensures r == [] <==> s == []
    ensures r != [] ==> (IsJsSpace(r[0]) <==> IsJsSpace(s[0]))
    ensures forall k :: 0 <= k < |r| && IsJsSpace(r[k]) ==> r[k] == ' '
    ensures NoAdjacentSpaces(r)
    ensures NonSpace(r) == NonSpace(s)
    decreases |s|
  {
    if s == [] then []
    else if IsJsSpace(s[0]) then
      var tail := TrimStart(s[1..]);
      var rest := CollapseSpaces(tail);
      NonSpaceOfLeadingSpace(s[1..]);
      var r := [' '] + rest;
      assert r[1..] == rest;
      r
    else
      var rest := CollapseSpaces(s[1..]);
      var r := [s[0]] + rest;
      assert r[1..] == rest;
      r
  }

  lemma {:induction false} NonSpaceAppend(a: string, b: string)
    ensures NonSpace(a + b) == NonSpace(a) + NonSpace(b)
    decreases |a|
  {
    if a == [] {
      assert a + b == b;
    } else {
      assert (a + b)[0] == a[0] && (a + b)[1..] == a[1..] + b;
      NonSpaceAppend(a[1..], b);
    }
  }

  lemma {:induction false} NonSpaceOfSpaces(s: string)
    requires forall k :: 0 <= k < |s| ==> IsJsSpace(s[k])
    ensures NonSpace(s) == []
    decreases |s|
  {
    if s != [] {
      NonSpaceOfSpaces(s[1..]);
    }
  }

  /** Trimming removes white space only: what is not white space is kept, in order. */
  lemma NonSpaceOfTrim(s: string)
    ensures NonSpace(Trim(s)) == NonSpace(s)
  {
    var r := Trim(s);
    var p: nat :| IsTrimAt(s, p, r);
    NonSpaceOfTrimAt(s, p, r);
  }

  lemma NonSpaceOfTrimAt(s: string, p: nat, r: string)
    requires IsTrimAt(s, p, r)
    ensures NonSpace(r) == NonSpace(s)
  {
    var head, tail := s[..p], s[p + |r|..];
    assert s == head + r + tail;
    assert forall k :: 0 <= k < |head| ==> IsJsSpace(head[k]);
    assert forall k :: 0 <= k < |tail| ==> IsJsSpace(tail[k]);
    NonSpaceAppend(head + r, tail);
    NonSpaceAppend(head, r);
    NonSpaceOfSpaces(head);
    NonSpaceOfSpaces(tail);
  }

  /** A slice of a string without adjacent white space has none either. */
  lemma SliceNoAdjacentSpaces(s: string, p: nat, q: nat)
    requires p <= q <= |s| && NoAdjacentSpaces(s)
    ensures NoAdjacentSpaces(s[p..q])
  {
    assert forall k :: 0 <= k < q - p ==> s[p..q][k] == s[p + k];
  }

  /** Trimming keeps a string free of adjacent white space. */
  lemma TrimNoAdjacentSpaces(s: string)
    requires NoAdjacentSpaces(s)
    ensures NoAdjacentSpaces(Trim(s))
  {
    var r := Trim(s);
    var p: nat :| IsTrimAt(s, p, r);
    SliceNoAdjacentSpaces(s, p, p + |r|);
  }

  /** A string that starts with something other than white space trims to a non-empty one. */
  lemma TrimNonEmpty(s: string)
    requires s != [] && !IsJsSpace(s[0])
    ensures Trim(s) != []
  {
    var r := Trim(s);
    var p: nat :| IsTrimAt(s, p, r);
  }

  /** Trimming keeps a string whose only white space is plain spaces that way. */
  lemma TrimKeepsBlanks(s: string)
    requires forall k :: 0 <= k < |s| && IsJsSpace(s[k]) ==> s[k] == ' '
    ensures forall k :: 0 <= k < |Trim(s)| && IsJsSpace(Trim(s)[k]) ==> Trim(s)[k] == ' '
  {
    var r := Trim(s);
    var p: nat :| IsTrimAt(s, p, r);
    assert forall k :: 0 <= k < |r| ==> r[k] == s[p + k];
  }

  /** The images of a list are the images of its elements. */
  lemma MapMembers<T, U>(xs: seq<T>, f: T -> U)
    ensures forall y :: y in Map(xs, f) <==> exists x :: x in xs && f(x) == y
  {
    forall y | y in Map(xs, f) ensures exists x :: x in xs && f(x) == y {
      var k :| 0 <= k < |xs| && Map(xs, f)[k] == y;
      assert xs[k] in xs;
    }
    forall x | x in xs ensures f(x) in Map(xs, f) {
      var k :| 0 <= k < |xs| && xs[k] == x;
      assert Map(xs, f)[k] == f(x);
    }
  }

  /** `xs.filter(p).slice(0, n)`: at most `n` elements of `xs` that pass `p`, in order. */
  lemma TakeFiltered<T(!new)>(xs: seq<T>, p: T -> bool, n: nat)
    ensures var r := Prefix(Filter(xs, p), n);
      && |r| <= n
      && (forall x :: x in r ==> x in xs && p(x))
      && IsSubsequence(r, xs)
  {
    var found := Filter(xs, p);
    var r := Prefix(found, n);
    PrefixIsSubsequence(found, n);
    SubsequenceTransitive(r, found, xs);
    forall x | x in r ensures x in found {
      var k :| 0 <= k < |r| && r[k] == x;
      assert found[k] == x;
    }
  }

  /** `xs.map(f).filter(p)` keeps the images that pass `p`. */
  lemma FilterMapMembers<T, U(!new)>(xs: seq<T>, f: T -> U, p: U -> bool)
    ensures forall y :: y in Filter(Map(xs, f), p) <==> p(y) && exists x :: x in xs && f(x) == y
  {
    MapMembers(xs, f);
  }

  // ---------------------------------------------------------------------------
  // file extensions

  /** `filePath.split('.').pop().toLowerCase()`: the last dot-separated piece of a
      path, lower-cased. `pop` of a split never yields `undefined`. */
  function Extension(filePath: string): (r: string)
    ensures '.' !in r
    ensures |r| <= |filePath|
  {
    LowerString(AfterLast(filePath, '.'))
  }

  /** Lower-casing maps no other character to a dot. */
  lemma LowerIsDotOnlyForDot(c: char)
    ensures Lower(c) == '.' <==> c == '.'
  {
  }

  /** Taking the last piece and lower-casing commute. */
  lemma ExtensionOfLowered(filePath: string)
    ensures Extension(filePath) == AfterLast(LowerString(filePath), '.')
  {
    var r := AfterLast(filePath, '.');
    var t := LowerString(r);
    var lower := LowerString(filePath);
    forall k | 0 <= k < |t| ensures t[k] != '.' {
      LowerIsDotOnlyForDot(r[k]);
    }
    if |r| < |filePath| {
      var x := |filePath| - |r| - 1;
      assert lower[x] == '.';
      assert lower[x..] == [lower[x]] + lower[x + 1..];
      assert lower[x + 1..] == t by {
        forall k | 0 <= k < |t| ensures lower[x + 1 + k] == t[k] {
          assert r[k] == filePath[x + 1 + k];
        }
      }
      assert EndsWithPiece(lower, '.', t);
    } else {
      assert r == filePath;
      assert EndsWithPiece(lower, '.', t);
    }
    AfterLastIs(lower, '.', t);
  }
}
