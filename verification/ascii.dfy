/** ASCII character classes used by the content filter: the regular-expression
    word class `\w` and case folding, both restricted to ASCII. */
module Ascii {

  /** A character of the class `\w`: an ASCII letter, an ASCII digit or `_`. */
  predicate IsWordChar(c: char) {
    ('a' <= c <= 'z') || ('A' <= c <= 'Z') || ('0' <= c <= '9') || c == '_'
  }

  /** ASCII case folding of one character: upper-case letters become lower-case,
      every other character is left alone. */
  function Lower(c: char): (r: char)
    ensures IsWordChar(r) == IsWordChar(c)
    ensures !('A' <= r <= 'Z')
    ensures r != c ==> 'A' <= c <= 'Z' && r as int == c as int + 32
  {
    if 'A' <= c <= 'Z' then (c as int + 32) as char else c
  }

  /** ASCII case folding of a string, character by character. */
  function LowerStr(s: string): (r: string)
    ensures |r| == |s|
    ensures forall i :: 0 <= i < |s| ==> r[i] == Lower(s[i])
  {
    seq(|s|, i requires 0 <= i < |s| => Lower(s[i]))
  }
}
