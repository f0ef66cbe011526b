/** The optional value used for results that may be absent. */
module Maybe {

  datatype Option<+T> = None | Some(value: T)
}

/**
  Character classes used by the scanner and by the grammar's token rules.
  The C library's `iswspace` and `iswalnum` are locale dependent; here they are
  approximated by their ASCII ("C" locale) meaning.
*/
module Chars {

  /** `iswspace` in the C locale: space, tab, line feed, vertical tab, form feed, carriage return. */
  predicate IsSpace(c: char) {
    c == ' ' || c == '\t' || c == '\n' || c == '\U{000B}' || c == '\U{000C}' || c == '\r'
  }

  predicate IsDigit(c: char) {
    '0' <= c <= '9'
  }

  predicate IsLetter(c: char) {
    ('a' <= c <= 'z') || ('A' <= c <= 'Z')
  }

  /** `iswalnum` in the C locale. */
  predicate IsAlnum(c: char) {
    IsLetter(c) || IsDigit(c)
  }

  /** `is_identifier_char` of the scanner: alphanumeric or underscore. */
  predicate IsIdentChar(c: char) {
    IsAlnum(c) || c == '_'
  }

  /** The first character of a grammar identifier `[a-zA-Z_]`. */
  predicate IsIdentStart(c: char) {
    IsLetter(c) || c == '_'
  }

  predicate IsHexDigit(c: char) {
    IsDigit(c) || ('a' <= c <= 'f') || ('A' <= c <= 'F')
  }

  predicate IsOctDigit(c: char) {
    '0' <= c <= '7'
  }

  /** A whitespace character never continues an identifier. */
  lemma SpaceIsNotIdentChar(c: char)
    ensures IsSpace(c) ==> !IsIdentChar(c)
  {
  }
}
