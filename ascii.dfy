/**
 * The ASCII character tests and conversions that the cipher relies on
 * (Rust's `char::is_ascii_alphabetic`, `is_ascii_uppercase` and
 * `to_ascii_lowercase`), and the letters of the Latin alphabet by position.
 * A Rust `char` is a Unicode scalar value, which is exactly a Dafny `char`.
 */
module Ascii {

  predicate IsAsciiUppercase(c: char) {
    'A' <= c <= 'Z'
  }

  predicate IsAsciiLowercase(c: char) {
    'a' <= c <= 'z'
  }

  predicate IsAsciiAlphabetic(c: char) {
    IsAsciiUppercase(c) || IsAsciiLowercase(c)
  }

  /** ASCII upper-case letters become lower-case; every other character is kept. */
  function ToAsciiLowercase(c: char): (r: char)
    ensures IsAsciiUppercase(c) ==> IsAsciiLowercase(r) && r as int - 'a' as int == c as int - 'A' as int
    ensures !IsAsciiUppercase(c) ==> r == c
  {
    if IsAsciiUppercase(c) then (c as int + 32) as char else c
  }

  /** The upper-case letter at position `n` of the alphabet (0 is 'A'). */
  function Letter(n: int): (c: char)
    requires 0 <= n < 26
    ensures IsAsciiUppercase(c) && AlphabetIndex(c) == n
  {
    ('A' as int + n) as char
  }

  /** The lower-case letter at position `n` of the alphabet (0 is 'a'). */
  function LowerLetter(n: int): (c: char)
    requires 0 <= n < 26
    ensures IsAsciiLowercase(c) && AlphabetIndex(c) == n
  {
    ('a' as int + n) as char
  }

  /** Position of an ASCII letter in the alphabet, whatever its case. */
  function AlphabetIndex(c: char): (n: int)
    requires IsAsciiAlphabetic(c)
    ensures 0 <= n < 26
  {
    if IsAsciiUppercase(c) then c as int - 'A' as int else c as int - 'a' as int
  }

  /** A letter is the letter of its own case at its own position. */
  lemma LetterAtIndex(c: char)
    requires IsAsciiAlphabetic(c)
    ensures IsAsciiUppercase(c) ==> Letter(AlphabetIndex(c)) == c
    ensures IsAsciiLowercase(c) ==> LowerLetter(AlphabetIndex(c)) == c
  {
  }

  /**
   * The ASCII letters are exactly the 26 letters of the alphabet in each
   * case, and all of them are ASCII (below 128): no other character, such
   * as a Cyrillic letter, is alphabetic in this sense.
   */
  lemma AsciiLetterClasses(c: char)
    ensures IsAsciiUppercase(c) <==> exists n :: 0 <= n < 26 && Letter(n) == c
    ensures IsAsciiLowercase(c) <==> exists n :: 0 <= n < 26 && LowerLetter(n) == c
    ensures IsAsciiAlphabetic(c) ==> c as int < 128
  {
    if IsAsciiAlphabetic(c) {
      LetterAtIndex(c);
    }
  }
}
