/**
 * Python's `str.lower` and `str.upper` restricted to ASCII, which is all a
 * TRON Base58 address or a keyword of ASCII letters and digits ever holds.
 */
module Ascii {
  predicate IsUpper(c: char) { 'A' <= c <= 'Z' }
  predicate IsLower(c: char) { 'a' <= c <= 'z' }
  predicate IsDigit(c: char) { '0' <= c <= '9' }
  predicate IsAlnum(c: char) { IsUpper(c) || IsLower(c) || IsDigit(c) }

  /** A keyword that can be spliced into a `[...]` class without changing its meaning. */
  predicate IsAlnumString(s: string) { forall i :: 0 <= i < |s| ==> IsAlnum(s[i]) }

  /** `str.lower` on one character: an upper-case letter becomes the lower-case letter
      at the same alphabet position; everything else is unchanged. */
  function Lower(c: char): (r: char)
    ensures !IsUpper(r)
    ensures IsUpper(c) ==> IsLower(r) && r as int - 'a' as int == c as int - 'A' as int
    ensures !IsUpper(c) ==> r == c
  {
    if IsUpper(c) then (c as int + 32) as char else c
  }

  /** `str.upper` on one character, the mirror image of `Lower`. */
  function Upper(c: char): (r: char)
    ensures !IsLower(r)
    ensures IsLower(c) ==> IsUpper(r) && r as int - 'A' as int == c as int - 'a' as int
    ensures !IsLower(c) ==> r == c
  {
    if IsLower(c) then (c as int - 32) as char else c
  }

  /** Lower-casing forgets exactly the case of a letter. */
  lemma SameLower(c: char, d: char)
    ensures Lower(c) == Lower(d) <==> c == d || c == Lower(d) || c == Upper(Lower(d))
  {
  }

  /** `str.lower` on a string: character by character, leaving no upper-case letter. */
  function LowerString(s: string): (r: string)
    ensures |r| == |s|
    ensures forall i :: 0 <= i < |r| ==> !IsUpper(r[i])
    ensures forall i :: 0 <= i < |s| ==> r[i] == Lower(s[i])
  {
    seq(|s|, i requires 0 <= i < |s| => Lower(s[i]))
  }
}
