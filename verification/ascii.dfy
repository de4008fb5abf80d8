/** Character classes used by the classical ciphers.  The regular expression
    `/[a-z]/i` matches exactly the 52 ASCII letters, so every cipher here tests
    letters with these predicates. */
module Ascii {

  predicate IsUpper(c: char) { 'A' <= c <= 'Z' }

  predicate IsLower(c: char) { 'a' <= c <= 'z' }

  /** The class `/[a-z]/i`: a..z, and, since the flag makes the match
      case-insensitive, every character whose lower case is in a..z. */
  predicate IsLetter(c: char): (b: bool)
    ensures b ==> c as int < 128
    ensures b <==> IsLower(c) || (IsUpper(c) && IsLower((c as int + 32) as char))
  {
    IsUpper(c) || IsLower(c)
  }

  /** `String.prototype.toUpperCase` restricted to one ASCII letter. */
  function ToUpper(c: char): (r: char)
    requires IsLetter(c)
    ensures IsUpper(r)
    ensures IsUpper(c) ==> r == c
    ensures IsLower(c) ==> r as int == c as int - 32
  {
    if IsLower(c) then (c as int - 32) as char else c
  }
}
