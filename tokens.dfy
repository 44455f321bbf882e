/** The token declarations of src/include/lexer.h (src/eval.h declares the
    same kinds without Identifier, Comma and Max). */
module Tokens {

  /** Token kinds, in declaration order; the zero value of the C enum is Error. */
  datatype TokenKind =
    | Error
    | Eof
    | Identifier
    | Number
    | Plus
    | Minus
    | Star
    | Slash
    | Caret
    | LeftParen
    | RightParen
    | Comma
    | Max

  /** A token is a view into the input: `length` characters from `start`. */
  datatype Token = Token(kind: TokenKind, start: nat, length: nat)

  /** What a zero-initialised Token reads as: an error token of length 0. */
  const ZeroToken := Token(Error, 0, 0)

  /** The kind and the text of a token: all that the parser looks at. */
  datatype Lexeme = Lexeme(kind: TokenKind, text: string)

  /** The characters a token stands for; empty if the view leaves the input. */
  function TextOf(input: string, t: Token): string
  {
    if t.start + t.length <= |input| then input[t.start..t.start + t.length] else []
  }

  function LexemeOf(input: string, t: Token): Lexeme
  {
    Lexeme(t.kind, TextOf(input, t))
  }

  /** The total length of the first `k` tokens: the characters they cover,
      whitespace between them not included. */
  function Width(ts: seq<Token>, k: nat): nat
    requires k <= |ts|
  {
    if k == 0 then 0 else Width(ts, k - 1) + ts[k - 1].length
  }
}
