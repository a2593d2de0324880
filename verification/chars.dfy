/** Character classes that the Python code takes from Unicode (`str.split`,
    `str.strip`, the regular-expression classes `\s` and `\d`, `str.isupper`,
    `str.lower`, `str.upper`) and the explicit letter class of the entity
    normaliser. Whitespace is Python's complete `str.isspace` set; the case
    classes cover ASCII and Latin-1 (where `ª` and `º` count as lower case,
    as in Python); digits are the ASCII digits. */
module Chars {

  /** `str.isspace()`: the characters `str.split()`, `str.strip()` and the
      regular-expression class `\s` treat as whitespace. */
  predicate IsSpace(c: char) {
    var n := c as int;
    || 0x09 <= n <= 0x0D
    || 0x1C <= n <= 0x20
    || n == 0x85 || n == 0xA0 || n == 0x1680
    || 0x2000 <= n <= 0x200A
    || n == 0x2028 || n == 0x2029 || n == 0x202F || n == 0x205F || n == 0x3000
  }

  predicate IsNewline(c: char) {
    c == '\n'
  }

  /** The regular-expression class `\d` (restricted to ASCII digits). */
  predicate IsDigit(c: char) {
    '0' <= c <= '9'
  }

  /** The letter class `[A-Za-zÀ-ÖØ-öø-ÿ]` of the entity normaliser. */
  predicate IsEntityLetter(c: char) {
    || 'A' <= c <= 'Z'
    || 'a' <= c <= 'z'
    || 'À' <= c <= 'Ö'
    || 'Ø' <= c <= 'ö'
    || 'ø' <= c <= 'ÿ'
  }

  /** The complement class `[^A-Za-zÀ-ÖØ-öø-ÿ]`. */
  predicate IsNonLetter(c: char) {
    !IsEntityLetter(c)
  }

  /** An upper-case cased character (`c.isupper()` for one character). */
  predicate IsUpper(c: char) {
    || 'A' <= c <= 'Z'
    || ('À' <= c <= 'Þ' && c != '×')
  }

  /** A lower-case cased character (`c.islower()` for one character). The
      ordinal indicators `ª` and `º` are lower case without an upper-case
      form. */
  predicate IsLower(c: char) {
    || 'a' <= c <= 'z'
    || ('ß' <= c <= 'ÿ' && c != '÷')
    || c == 'µ' || c == 'ª' || c == 'º'
  }

  /** The Latin-1 lower-case letters that `ToUpper` keeps: `ª` and `º` have
      no upper-case form, and the upper-case forms of `ß`, `ÿ` and `µ` lie
      outside Latin-1 (or are two characters). */
  predicate KeepsCase(c: char) {
    c == 'ß' || c == 'ÿ' || c == 'µ' || c == 'ª' || c == 'º'
  }

  /** `str.lower()` on one character: an upper-case letter becomes the
      lower-case letter whose upper-case form it is. */
  function ToLower(c: char): (r: char)
    ensures IsUpper(c) ==> IsLower(r) && !KeepsCase(r) && ToUpper(r) == c
    ensures !IsUpper(c) ==> r == c
  {
    if IsUpper(c) then (c as int + 0x20) as char else c
  }

  /** `str.upper()` on one character; the letters of `KeepsCase` are kept. */
  function ToUpper(c: char): (r: char)
    ensures !IsLower(r) || KeepsCase(r)
    ensures IsLower(c) && !KeepsCase(c) ==> IsUpper(r)
    ensures !IsLower(c) ==> r == c
  {
    if 'a' <= c <= 'z' || ('à' <= c <= 'þ' && c != '÷') then (c as int - 0x20) as char else c
  }

  /** Upper-casing a lower-case letter with an upper-case form and
      lower-casing the result gives the letter back. */
  lemma {:induction false} CaseRoundTrip(c: char)
    ensures IsUpper(c) ==> ToUpper(ToLower(c)) == c
    ensures IsLower(c) && !KeepsCase(c) ==> ToLower(ToUpper(c)) == c
  {
  }

  lemma {:induction false} LetterIsNotSpace(c: char)
    requires IsEntityLetter(c)
    ensures !IsSpace(c)
  {
  }
}
