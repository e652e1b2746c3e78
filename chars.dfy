/**
 * Character classes and ASCII case mapping used by the colour-list
 * extractor: the three classes of its regular expression and the case
 * mapping behind `str.title()` and `str.upper()` on ASCII text.
 */
module Chars {

  /** A letter of the set `[a-zA-Z]`; for ASCII these are exactly the cased characters. */
  predicate IsAsciiLetter(c: char) {
    'a' <= c <= 'z' || 'A' <= c <= 'Z'
  }

  predicate IsAsciiLower(c: char) {
    'a' <= c <= 'z'
  }

  predicate IsAsciiDigit(c: char) {
    '0' <= c <= '9'
  }

  /** The class `[a-zA-Z0-9 /]` of the colour-name group. */
  predicate IsNameChar(c: char) {
    IsAsciiLetter(c) || IsAsciiDigit(c) || c == ' ' || c == '/'
  }

  /** The class `[a-fA-F0-9]` of the hex group. */
  predicate IsHexDigit(c: char) {
    'a' <= c <= 'f' || 'A' <= c <= 'F' || IsAsciiDigit(c)
  }

  /** Every character of `s` is a hex digit. */
  predicate AllHexDigits(s: string) {
    forall i :: 0 <= i < |s| ==> IsHexDigit(s[i])
  }

  /**
   * The class `\s` of a regular expression over text: the characters that
   * Python's `str.isspace()` accepts (ASCII 9-13 and 28-32, NEL, NBSP, and
   * the Unicode space separators, line and paragraph separators).
   */
  predicate IsWhitespace(c: char) {
    var n := c as int;
    (9 <= n <= 13) || (28 <= n <= 32) || n == 0x85 || n == 0xA0 || n == 0x1680
    || (0x2000 <= n <= 0x200A) || n == 0x2028 || n == 0x2029 || n == 0x202F
    || n == 0x205F || n == 0x3000
  }

  /** The only character that is both in the name class and in `\s` is the space. */
  lemma NameWhitespaceIsSpace(c: char)
    requires IsNameChar(c) && IsWhitespace(c)
    ensures c == ' '
  {
  }

  /** ASCII upper-casing: `a`-`z` become `A`-`Z`, every other character is kept. */
  function Upper(c: char): (r: char)
    ensures !IsAsciiLower(r)
    ensures IsAsciiLetter(r) <==> IsAsciiLetter(c)
    ensures !IsAsciiLower(c) ==> r == c
  {
    if IsAsciiLower(c) then (c as int - 32) as char else c
  }

  /** ASCII lower-casing: `A`-`Z` become `a`-`z`, every other character is kept. */
  function Lower(c: char): (r: char)
    ensures !('A' <= r <= 'Z')
    ensures IsAsciiLetter(r) <==> IsAsciiLetter(c)
    ensures !('A' <= c <= 'Z') ==> r == c
  {
    if 'A' <= c <= 'Z' then (c as int + 32) as char else c
  }
}
