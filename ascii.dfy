/** ASCII stand-ins for Python's `str.isalpha` and `str.lower`, as the guess
    validation in hangman_service.py uses them. */
module Ascii {

  /** `c.isalpha()` for one character, restricted to the ASCII letters. */
  predicate IsAlpha(c: char) {
    'a' <= c <= 'z' || 'A' <= c <= 'Z'
  }

  predicate IsLower(c: char) {
    'a' <= c <= 'z'
  }

  predicate IsUpper(c: char) {
    'A' <= c <= 'Z'
  }

  /** `s.isalpha()`: true for a non-empty string made of letters only. */
  predicate IsAlphaString(s: string) {
    |s| > 0 && forall i :: 0 <= i < |s| ==> IsAlpha(s[i])
  }

  /** `c.lower()` on one ASCII character: an upper-case letter becomes the
      lower-case letter of the same position in the alphabet, anything else
      is returned as it is. */
  function ToLower(c: char): (r: char)
    ensures IsAlpha(c) <==> IsLower(r)
    ensures IsUpper(c) ==> r as int - 'a' as int == c as int - 'A' as int
    ensures !IsUpper(c) ==> r == c
  {
    if IsUpper(c) then (c as int - 'A' as int + 'a' as int) as char else c
  }

  /** Lowering twice is lowering once. */
  lemma ToLowerIdempotent(c: char)
    ensures ToLower(ToLower(c)) == ToLower(c)
  {
  }

  /** Two letters lower to the same character exactly when they are the same
      letter up to case. */
  lemma ToLowerIgnoresCase(c: char, d: char)
    requires IsAlpha(c) && IsAlpha(d)
    ensures ToLower(c) == ToLower(d) <==>
              (c == d || c as int - d as int == 32 || d as int - c as int == 32)
  {
  }
}
