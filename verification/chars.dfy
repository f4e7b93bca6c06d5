/**
 * Character classes used by the scanner and the record builder. Each predicate
 * is the single-character case of one regular expression or built-in of the
 * JavaScript source (`/^[a-z]+$/`, `/^[A-Z]+$/`, `String.prototype.trim`,
 * `toUpperCase`).
 */
module Chars {

  /** `c.match(/^[a-z]+$/)` is truthy for a one-character string `c`. */
  predicate IsLower(c: char) {
    'a' <= c <= 'z'
  }

  /** `c.match(/^[A-Z]+$/)` is truthy for a one-character string `c`. */
  predicate IsUpper(c: char) {
    'A' <= c <= 'Z'
  }

  predicate IsAsciiLetter(c: char) {
    IsLower(c) || IsUpper(c)
  }

  predicate IsDigit(c: char) {
    '0' <= c <= '9'
  }

  /**
   * The characters `String.prototype.trim` removes: the ECMAScript WhiteSpace
   * production (TAB, VT, FF, ZWNBSP and the space separators) and the
   * LineTerminator production (LF, CR, LS, PS).
   */
  predicate IsJsWhitespace(c: char) {
    var n := c as int;
    || n == 0x09 || n == 0x0A || n == 0x0B || n == 0x0C || n == 0x0D
    || n == 0x20 || n == 0xA0 || n == 0x1680
    || (0x2000 <= n <= 0x200A)
    || n == 0x2028 || n == 0x2029 || n == 0x202F || n == 0x205F
    || n == 0x3000 || n == 0xFEFF
  }

  /** Upper-casing of one character, on the ASCII range only. */
  function ToUpper(c: char): (r: char)
    ensures IsLower(c) ==> IsUpper(r) && r as int + 32 == c as int
    ensures !IsLower(c) ==> r == c
    ensures !IsLower(r)
  {
    if IsLower(c) then (c as int - 32) as char else c
  }

}
