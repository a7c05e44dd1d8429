/**
 * The `<ctype.h>` classification functions in the "C" locale, and the
 * NUL-terminated string view of a `char` buffer.
 */
module CType {

  /** `isspace`: blank, tab, newline, vertical tab, form feed, carriage return. */
  predicate IsSpace(c: char) { c == ' ' || '\t' <= c <= '\r' }

  predicate IsDigit(c: char) { '0' <= c <= '9' }

  predicate IsUpper(c: char) { 'A' <= c <= 'Z' }

  predicate IsLower(c: char) { 'a' <= c <= 'z' }

  predicate IsAlnum(c: char) { IsDigit(c) || IsUpper(c) || IsLower(c) }
}
