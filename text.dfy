/** C-string helpers shared by the relay and the client. */
module Text {

  const NUL: char := '\0'
  const NEWLINE: char := '\n'

  /** The part of `s` before the first occurrence of `c` (all of `s` when `c` does not occur).
      This is what `msg[strcspn(msg, "\n")] = '\0'` leaves in a buffer, and what `strlen`
      and `printf("%s")` see of a buffer that holds `c == NUL`. */
  function CutAt(s: seq<char>, c: char): (r: seq<char>)
    ensures |r| <= |s| && r == s[..|r|]
    ensures c !in r
    ensures |r| < |s| ==> s[|r|] == c
    ensures c !in s ==> r == s
  {
    if s == [] then []
    else if s[0] == c then []
    else [s[0]] + CutAt(s[1..], c)
  }
}
