/** Character classes the analyzer distinguishes. */
module Chars {

  /** The characters Python's `str.isspace()` accepts: the ones `str.split()` and
      `str.strip()` (both without arguments) treat as whitespace. */
  predicate IsWhitespace(c: char) {
    || ('\t' <= c <= '\r')
    || ('\U{1C}' <= c <= '\U{1F}')
    || c == ' '
    || c == '\U{85}'
    || c == '\U{A0}'
    || c == '\U{1680}'
    || ('\U{2000}' <= c <= '\U{200A}')
    || c == '\U{2028}'
    || c == '\U{2029}'
    || c == '\U{202F}'
    || c == '\U{205F}'
    || c == '\U{3000}'
  }

  /** The whitespace `int()` skips around a number. CPython keeps characters
      below U+007F as they are and turns other whitespace into a space, then
      skips only the C-locale spaces: space, `\t`, `\n`, `\v`, `\f` and
      `\r`. The separators U+001C to U+001F are therefore whitespace to
      `str.split()` but make `int()` fail. */
  predicate IsIntSpace(c: char) {
    IsWhitespace(c) && !('\U{1C}' <= c <= '\U{1F}')
  }

  /** A character that can be part of a word: anything but whitespace. */
  predicate IsWordChar(c: char) {
    !IsWhitespace(c)
  }

  /** A character of the regular expression class `[.!?]`. */
  predicate IsSentenceEnd(c: char) {
    c == '.' || c == '!' || c == '?'
  }

  /** Anything but the ASCII space, the one character `replace(" ", "")` removes. */
  predicate IsNotSpace(c: char) {
    c != ' '
  }

  predicate IsDigit(c: char) {
    '0' <= c <= '9'
  }
}
