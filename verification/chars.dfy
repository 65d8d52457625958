/**
 * Character classes of JavaScript strings and regular expressions.
 * A `char` stands for one Unicode scalar value; it is one UTF-16 code unit of a
 * JavaScript string only inside the Basic Multilingual Plane.
 */
module Chars {

  /** The set matched by `\s` and removed by `String.prototype.trim`:
      WhiteSpace and LineTerminator of ECMAScript. */
  predicate IsJsSpace(c: char) {
    || c == '\t' || c == '\n' || c == '\U{000B}' || c == '\U{000C}' || c == '\r' || c == ' '
    || c == '\U{00A0}' || c == '\U{1680}' || ('\U{2000}' <= c <= '\U{200A}')
    || c == '\U{2028}' || c == '\U{2029}' || c == '\U{202F}' || c == '\U{205F}'
    || c == '\U{3000}' || c == '\U{FEFF}'
  }

  /** The characters a regular-expression `.` does not match. */
  predicate IsLineTerminator(c: char) {
    c == '\n' || c == '\r' || c == '\U{2028}' || c == '\U{2029}'
  }

  predicate IsDigit(c: char) { '0' <= c <= '9' }

  predicate IsAsciiUpper(c: char) { 'A' <= c <= 'Z' }

  predicate IsAsciiLower(c: char) { 'a' <= c <= 'z' }

  predicate IsAsciiLetter(c: char) { IsAsciiUpper(c) || IsAsciiLower(c) }

  /** `\w` without the `u` flag: the ASCII word characters that `\b` looks at. */
  predicate IsWordChar(c: char) { IsAsciiLetter(c) || IsDigit(c) || c == '_' }

  /** Latin-1 upper-case letters À..Þ, the multiplication sign excepted. */
  predicate IsLatin1Upper(c: char) { '\U{00C0}' <= c <= '\U{00DE}' && c != '\U{00D7}' }

  /** Latin-1 lower-case letters à..þ, the division sign excepted. */
  predicate IsLatin1Lower(c: char) { '\U{00E0}' <= c <= '\U{00FE}' && c != '\U{00F7}' }

  /** `toLowerCase` on one character, for ASCII and Latin-1 letters. */
  function Lower(c: char): (r: char)
    ensures IsAsciiUpper(c) ==> IsAsciiLower(r)
    ensures IsLatin1Upper(c) ==> IsLatin1Lower(r)
    ensures !IsAsciiUpper(c) && !IsLatin1Upper(c) ==> r == c
  {
    if IsAsciiUpper(c) || IsLatin1Upper(c) then (c as int + 32) as char else c
  }

  /** The case canonicalisation of a regular expression with the `i` flag and without
      `u`: upper-casing, restricted to ASCII and Latin-1, plus ÿ to Ÿ (U+0178). */
  function Upper(c: char): (r: char)
    ensures IsAsciiLower(c) ==> IsAsciiUpper(r)
    ensures IsLatin1Lower(c) ==> IsLatin1Upper(r)
    ensures IsAsciiLetter(r) ==> IsAsciiLetter(c)
  {
    if IsAsciiLower(c) || IsLatin1Lower(c) then (c as int - 32) as char
    else if c == '\U{00FF}' then '\U{0178}'
    else c
  }

  /** Two characters compare equal under the `i` flag. */
  predicate EqualsIgnoringCase(a: char, b: char) { Upper(a) == Upper(b) }

  /** Lower-casing then upper-casing gives back the canonical form: `Lower` and `Upper`
      agree on which letters are the same letter. */
  lemma LowerUpperAgree(c: char)
    ensures Upper(Lower(c)) == Upper(c)
  {
  }

  /** An ASCII letter is equal ignoring case only to the same letter in either case. */
  lemma AsciiLetterIgnoringCase(a: char, b: char)
    requires IsAsciiLetter(b)
    ensures EqualsIgnoringCase(a, b) ==> IsAsciiLetter(a) && Lower(a) == Lower(b)
  {
  }
}
