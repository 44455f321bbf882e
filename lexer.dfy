/** The lexer of src/lexer.c: a token start and a scan cursor over the
    expression, advanced in place; letters and `_` start identifiers. */
module Lexer {
  import opened Tokens
  import opened Scanner

  class Lexer {
    const input: string
    var start: nat
    var cur: nat

    ghost predicate Valid()
      reads this
    {
      start <= cur <= |input|
    }

    /** lexer_init: both indices at the beginning of the expression. */
    constructor (expression: string)
      ensures Valid() && input == expression
      ensures start == 0 && cur == 0
    {
      input := expression;
      start := 0;
      cur := 0;
    }

    function Current(): char
      reads this
    {
      Peek(input, cur)
    }

    /** make_token: the token spans the characters from `start` to `cur`. */
    function MakeToken(kind: TokenKind): Token
      reads this
      requires Valid()
    {
      Token(kind, start, cur - start)
    }

    /** skip_whitespace: consumes exactly space, CR, tab and LF. */
    method SkipWhitespace()
      requires Valid()
      modifies this`cur
      ensures Valid()
      ensures cur == SkipSpace(input, old(cur))
    {
      while true
        invariant Valid() && old(cur) <= cur
        invariant SkipSpace(input, cur) == SkipSpace(input, old(cur))
        decreases |input| - cur
      {
        var c := Current();
        match c
        case ' ' | '\r' | '\t' | '\n' =>
          cur := cur + 1;
        case _ =>
          return;
      }
    }

    /** token_number: the rest of the digit run, then at most one '.' and a
        second digit run. */
    method NumberToken() returns (t: Token)
      requires Valid()
      modifies this`cur
      ensures Valid()
      ensures cur == NumberEnd(input, old(cur))
      ensures t == MakeToken(Number)
    {
      while IsDigit(Current())
        invariant Valid() && old(cur) <= cur
        invariant DigitsEnd(input, cur) == DigitsEnd(input, old(cur))
        decreases |input| - cur
      {
        cur := cur + 1;
      }
      if Current() == '.' {
        cur := cur + 1;
        ghost var fraction := cur;
        while IsDigit(Current())
          invariant Valid() && fraction <= cur
          invariant DigitsEnd(input, cur) == DigitsEnd(input, fraction)
          decreases |input| - cur
        {
          cur := cur + 1;
        }
      }
      t := MakeToken(Number);
    }

    /** token_identifier: the rest of a run of letters, digits and `_`. */
    method IdentifierToken() returns (t: Token)
      requires Valid()
      modifies this`cur
      ensures Valid()
      ensures cur == IdentEnd(input, old(cur))
      ensures t == MakeToken(Identifier)
    {
      while IsAlpha(Current()) || IsDigit(Current())
        invariant Valid() && old(cur) <= cur
        invariant IdentEnd(input, cur) == IdentEnd(input, old(cur))
        decreases |input| - cur
      {
        cur := cur + 1;
      }
      t := MakeToken(Identifier);
    }

    /** lexer_next_token: one step of `Scan` with identifiers enabled; the
        token starts where whitespace ends. */
    method NextToken() returns (t: Token)
      requires Valid()
      modifies this
      ensures Valid()
      ensures Step(t, cur) == Scan(input, old(cur), true)
      ensures start == t.start
    {
      SkipWhitespace();
      start := cur;
      if Current() == '\0' {
        return MakeToken(Eof);
      }
      var c := Current();
      cur := cur + 1;
      ghost var step := Scan(input, old(cur), true);
      if IsDigit(c) {
        assert step == Step(Token(Number, start, NumberEnd(input, cur) - start), NumberEnd(input, cur));
        t := NumberToken();
        return;
      }
      if IsAlpha(c) {
        assert step == Step(Token(Identifier, start, IdentEnd(input, cur) - start), IdentEnd(input, cur));
        t := IdentifierToken();
        return;
      }
      assert step == Step(Token(SymbolKind(c), start, 1), cur);
      var kind: TokenKind;
      match c {
        case '(' => kind := LeftParen;
        case ')' => kind := RightParen;
        case '+' => kind := Plus;
        case '-' => kind := Minus;
        case '*' => kind := Star;
        case '/' => kind := Slash;
        case '^' => kind := Caret;
        case _ => kind := Error;
      }
      t := MakeToken(kind);
    }
  }
}
