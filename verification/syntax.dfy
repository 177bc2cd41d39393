/** Tokens of a parsed Java file. */
module Syntax {

  /** A token: its text, its 1-based line and its 0-based column. */
  datatype Token = Token(text: string, line: nat, column: nat)

  /** Source order on token start positions: by line, then by column. */
  predicate AtOrBefore(a: Token, b: Token) {
    a.line < b.line || (a.line == b.line && a.column <= b.column)
  }
}
