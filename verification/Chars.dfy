/** The sorts of characters that the texts are read by. */
module Chars {

  predicate IsDigit(c: char) { '0' <= c <= '9' }
  predicate IsHexDigit(c: char) { IsDigit(c) || 'a' <= c <= 'f' || 'A' <= c <= 'F' }
  predicate IsLetter(c: char) { 'a' <= c <= 'z' || 'A' <= c <= 'Z' }
  predicate IsSign(c: char) { c == '+' || c == '-' }
  predicate IsIdent(c: char) { c == '_' || IsLetter(c) || IsDigit(c) }

  /** White space. */
  predicate IsBlank(c: char) { c == ' ' || '\t' <= c <= '\r' }
}
