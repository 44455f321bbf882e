/** The lexer of the self-contained header src/eval.h: like src/lexer.c but
    without identifiers, and with a running count `pos` of the characters of
    the tokens emitted so far (whitespace is not counted). */
module StandaloneLexer {
  import opened Tokens
  import opened Scanner

  class Lexer {
    const input: string
    var start: nat
    var cur: nat
    var pos: nat

    ghost predicate Valid()
      reads this
    {
      start <= cur <= |input|
    }

    /** The set-up done by `eval`: both indices and `pos` at zero. */
    constructor (expression: string)
      ensures Valid() && input == expression
      ensures start == 0 && cur == 0 && pos == 0
    {
      input := expression;
      start := 0;
      cur := 0;
      pos := 0;
    }

    function Current(): char
      reads this
    {
      Peek(input, cur)
    }

    /** lex_make_token: for a number, first consumes the rest of the literal;
        then emits the token from `start` to `cur` and adds its length to
        `pos`. */
    method MakeToken(kind: TokenKind) returns (t: Token)
      requires Valid()
      modifies this`cur, this`pos
      ensures Valid()
      ensures cur == if kind == Number then NumberEnd(input, old(cur)) else old(cur)
      ensures t == Token(kind, start, cur - start)
      ensures pos == old(pos) + t.length
    {
      if kind == Number {
        while IsDigit(Current())
          invariant Valid() && old(cur) <= cur && pos == old(pos)
          invariant DigitsEnd(input, cur) == DigitsEnd(input, old(cur))
          decreases |input| - cur
        {
          cur := cur + 1;
        }
        if Current() == '.' {
          cur := cur + 1;
          ghost var fraction := cur;
          while IsDigit(Current())
            invariant Valid() && fraction <= cur && pos == old(pos)
            invariant DigitsEnd(input, cur) == DigitsEnd(input, fraction)
            decreases |input| - cur
          {
            cur := cur + 1;
          }
        }
      }
      var len := cur - start;
      pos := pos + len;
      t := Token(kind, start, len);
    }

    /** lex_next_token: one step of `Scan` without identifiers; `pos` grows
        by exactly the emitted token's length. */
    method NextToken() returns (t: Token)
      requires Valid()
      modifies this
      ensures Valid()
      ensures Step(t, cur) == Scan(input, old(cur), false)
      ensures start == t.start
      ensures pos == old(pos) + t.length
    {
      while IsSpace(Current())
        invariant Valid() && old(cur) <= cur && pos == old(pos)
        invariant SkipSpace(input, cur) == SkipSpace(input, old(cur))
        decreases |input| - cur
      {
        cur := cur + 1;
      }
      start := cur;
      if Current() == '\0' {
        t := MakeToken(Eof);
        return;
      }
      var c := Current();
      cur := cur + 1;
      ghost var step := Scan(input, old(cur), false);
      if IsDigit(c) {
        assert step == Step(Token(Number, start, NumberEnd(input, cur) - start), NumberEnd(input, cur));
        t := MakeToken(Number);
        return;
      }
      assert step == Step(Token(SymbolKind(c), start, 1), cur);
      var kind: TokenKind;
      match c {
        case '(' => kind := LeftParen;
        case ')' => kind := RightParen;
        case '+' => kind := Plus;
        case '-' => kind := Minus;
        case '*' => kind := Star;
        case '/' => kind := Slash;
        case '^' => kind := Caret;
        case _ => kind := Error;
      }
      t := MakeToken(kind);
    }
  }
}
