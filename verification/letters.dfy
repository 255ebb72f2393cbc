/** Case mapping used by the game: ASCII-only stand-ins for Java's
    `Character.toLowerCase` and `String.toLowerCase`. */
module Letters {

  predicate IsUpper(c: char) {
    'A' <= c <= 'Z'
  }

  /** Lower-case form of one character: `A`..`Z` become `a`..`z`, every
      other character is its own lower-case form. */
  function Lower(c: char): (r: char)
    ensures !IsUpper(r)
    ensures IsUpper(c) ==> 'a' <= r <= 'z' && r as int - c as int == 'a' as int - 'A' as int
    ensures !IsUpper(c) ==> r == c
  {
    if IsUpper(c) then (c as int - 'A' as int + 'a' as int) as char else c
  }

  /** A string is lower case when lowering leaves every character alone. */
  predicate IsLowerWord(s: string) {
    forall i :: 0 <= i < |s| ==> Lower(s[i]) == s[i]
  }

  /** Lower-case form of a whole word, character by character. */
  function LowerWord(s: string): (r: string)
    ensures |r| == |s|
    ensures forall i :: 0 <= i < |s| ==> r[i] == Lower(s[i])
    ensures IsLowerWord(r)
  {
    if s == [] then [] else [Lower(s[0])] + LowerWord(s[1..])
  }
}
