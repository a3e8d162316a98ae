/**
 * The few `java.lang.String` operations the inventory logic relies on:
 * `isBlank`, `toUpperCase` and `toLowerCase`. Case mapping is modelled on
 * ASCII letters only.
 */
module Strings {

  /** `Character.isWhitespace`: the ASCII separators and controls 9-13 and
      28-31, and the Unicode space, line and paragraph separators except the
      three non-breaking spaces (U+00A0, U+2007, U+202F). */
  predicate IsWhitespace(c: char) {
    var n := c as int;
    || (0x09 <= n <= 0x0D) || (0x1C <= n <= 0x20)
    || n == 0x1680 || (0x2000 <= n <= 0x2006) || (0x2008 <= n <= 0x200A)
    || n == 0x2028 || n == 0x2029 || n == 0x205F || n == 0x3000
  }

  /** `String.isBlank`: empty, or made of whitespace only. A Java `null`
      string is identified with the empty string, since every guard of the
      inventory logic tests `s == null || s.isBlank()`. */
  predicate IsBlank(s: string) {
    forall i :: 0 <= i < |s| ==> IsWhitespace(s[i])
  }

  function UpperChar(c: char): char {
    if 'a' <= c <= 'z' then (c as int - 32) as char else c
  }

  function LowerChar(c: char): char {
    if 'A' <= c <= 'Z' then (c as int + 32) as char else c
  }

  /** `String.toUpperCase` on ASCII letters. */
  function ToUpper(s: string): string {
    seq(|s|, i requires 0 <= i < |s| => UpperChar(s[i]))
  }

  /** `String.toLowerCase` on ASCII letters. */
  function ToLower(s: string): string {
    seq(|s|, i requires 0 <= i < |s| => LowerChar(s[i]))
  }

  /** Case mapping never turns a blank string into a non-blank one or back:
      letters are not whitespace, and whitespace is left alone. */
  lemma BlankUnderToUpper(s: string)
    ensures IsBlank(ToUpper(s)) <==> IsBlank(s)
  {
    forall i | 0 <= i < |s| ensures IsWhitespace(ToUpper(s)[i]) <==> IsWhitespace(s[i]) {
      assert ToUpper(s)[i] == UpperChar(s[i]);
    }
  }

  lemma BlankUnderToLower(s: string)
    ensures IsBlank(ToLower(s)) <==> IsBlank(s)
  {
    forall i | 0 <= i < |s| ensures IsWhitespace(ToLower(s)[i]) <==> IsWhitespace(s[i]) {
      assert ToLower(s)[i] == LowerChar(s[i]);
    }
  }
}
