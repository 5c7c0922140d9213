/**
 Character classes and case mappings behind Python's `str` methods.

 Whitespace is exactly the set of characters for which `str.isspace` holds, which
 is what `str.split()` and `str.rstrip()` use. Case mapping covers the Basic Latin
 letters and the Cyrillic block U+0400..U+045F (the roster is written in Russian);
 every other character is its own upper and lower case.
 */
module PyChar {

  /** `str.isspace` for a single character. */
  predicate IsSpace(c: char) {
    var n := c as int;
    || 0x09 <= n <= 0x0D
    || 0x1C <= n <= 0x20
    || n == 0x85 || n == 0xA0 || n == 0x1680
    || 0x2000 <= n <= 0x200A
    || n == 0x2028 || n == 0x2029 || n == 0x202F || n == 0x205F || n == 0x3000
  }

  predicate IsLowerLetter(c: char) {
    ('a' <= c <= 'z') || (0x0430 <= c as int <= 0x045F)
  }

  predicate IsUpperLetter(c: char) {
    ('A' <= c <= 'Z') || (0x0400 <= c as int <= 0x042F)
  }

  /** Upper-case mapping of one character: lower-case letters move to their
      upper-case partner, everything else is left alone. */
  function Upper(c: char): (r: char)
    ensures IsLowerLetter(c) ==> IsUpperLetter(r)
    ensures !IsLowerLetter(c) ==> r == c
  {
    var n := c as int;
    if 'a' <= c <= 'z' then (n - 0x20) as char
    else if 0x0430 <= n <= 0x044F then (n - 0x20) as char
    else if 0x0450 <= n <= 0x045F then (n - 0x50) as char
    else c
  }

  /** Lower-case mapping of one character, the mirror image of `Upper`. */
  function Lower(c: char): (r: char)
    ensures IsUpperLetter(c) ==> IsLowerLetter(r)
    ensures !IsUpperLetter(c) ==> r == c
  {
    var n := c as int;
    if 'A' <= c <= 'Z' then (n + 0x20) as char
    else if 0x0410 <= n <= 0x042F then (n + 0x20) as char
    else if 0x0400 <= n <= 0x040F then (n + 0x50) as char
    else c
  }

  /** The two mappings undo each other on the letters they move. */
  lemma CaseRoundTrip(c: char)
    ensures IsLowerLetter(c) ==> Lower(Upper(c)) == c
    ensures IsUpperLetter(c) ==> Upper(Lower(c)) == c
  {
  }

  /** Mapping a character twice is mapping it once. */
  lemma CaseIdempotent(c: char)
    ensures Upper(Upper(c)) == Upper(c)
    ensures Lower(Lower(c)) == Lower(c)
  {
  }

  /** Case mapping never turns a letter into whitespace or back, so it does
      not move word boundaries. */
  lemma CaseKeepsSpace(c: char)
    ensures IsSpace(Upper(c)) == IsSpace(c)
    ensures IsSpace(Lower(c)) == IsSpace(c)
  {
  }
}
