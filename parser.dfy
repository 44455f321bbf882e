/** The parser of src/parser.c: a current and a next token, pulled from the
    lexer of src/lexer.c by the ADVANCE macro, and the same recursive descent
    with precedence climbing as src/eval.h, without its exits.

    ADVANCE is written `(parser->cur = parser->next, lexer_next_token(...))`:
    it shifts `next` into `cur` and calls the lexer, but drops the token the
    lexer returns, so `next` keeps the zero token it was initialised with.
    The evident intent is to store that token in `next`. A parser is built in
    one of two modes, `fillsLookahead` false for ADVANCE as written and true
    for the intended one, and each parse method is proved to follow the
    Grammar functions on what that mode lets the parser see: as written,
    the zero token (an error token) forever; as intended, the lexeme stream
    of the input with identifiers, with `cur` one token behind the lexer. */
module Parser {
  import opened Tokens
  import opened Scanner
  import opened Syntax
  import Grammar
  import Lexer
  import LexerSync

  /** All the parser as written ever sees: the zero token, whose kind is
      TOKEN_ERROR, at the first index. */
  const ZeroStream: seq<Lexeme> := [Lexeme(Error, [])]

  class Parser {
    var cur: Token
    var next: Token
    const lexer: Lexer.Lexer
    const expr: string
    /** Whether ADVANCE stores the lexer's token in `next`. */
    const fillsLookahead: bool
    /** Every token the lexer yields before EOF, and the cursor after each. */
    ghost const toks: seq<Token>
    ghost const ends: seq<nat>
    /** The lexemes of those tokens. */
    ghost const stream: seq<Lexeme>
    /** What the Grammar functions read: `stream` as intended, `ZeroStream`
        as written. */
    ghost const view: seq<Lexeme>
    /** How many times the lexer has been called, and what it returned last. */
    ghost var pulled: nat
    ghost var last: Token

    /** The lexer and the ghost record of its calls agree, and `next` is
        what the mode makes of the lexer's last token. */
    ghost predicate Synced()
      reads this, lexer
    {
      && lexer.Valid() && lexer.input == expr
      && LexerSync.Streams(expr, toks, stream)
      && LexerSync.Pulled(expr, true, toks, ends, pulled, lexer.cur, last)
      && view == (if fillsLookahead then stream else ZeroStream)
      && (fillsLookahead ==> next == last)
      && (!fillsLookahead ==> cur == ZeroToken && next == ZeroToken)
    }

    /** After the two calls of parser_init, `cur` is the token at index
        `pulled - 2` of the stream (as written, no token is ever consumed). */
    ghost predicate Valid()
      reads this, lexer
    {
      && Synced()
      && 2 <= pulled <= |toks| + 2
      && (fillsLookahead ==> LexerSync.Holds(toks, pulled - 2, cur))
      && (!fillsLookahead ==> pulled == 2)
    }

    /** The current token is what the Grammar functions read at `pulled - 2`
        of `view`, and for a number the same text. */
    lemma SeesCurrent()
      requires Valid()
      ensures pulled - 2 <= |view|
      ensures Grammar.KindAt(view, pulled - 2) == cur.kind
      ensures cur.kind == Number ==> Grammar.Cur(view, pulled - 2) == LexemeOf(expr, cur)
    {
      if fillsLookahead {
        LexerSync.Sees(expr, toks, stream, pulled - 2, cur);
      }
    }

    /** parser_init: a lexer at the start of the expression, both tokens
        zero, then ADVANCE twice. */
    constructor (expression: string, fillsLookahead: bool)
      ensures Valid() && fresh(lexer)
      ensures expr == expression && this.fillsLookahead == fillsLookahead && pulled == 2
      ensures toks == TokensFrom(expression, 0, true) && stream == StreamOf(expression, true)
      ensures view == (if fillsLookahead then StreamOf(expression, true) else ZeroStream)
    {
      expr := expression;
      this.fillsLookahead := fillsLookahead;
      toks := TokensFrom(expression, 0, true);
      ends := EndsFrom(expression, 0, true);
      stream := StreamOf(expression, true);
      view := if fillsLookahead then StreamOf(expression, true) else ZeroStream;
      cur := ZeroToken;
      next := ZeroToken;
      lexer := new Lexer.Lexer(expression);
      pulled := 0;
      last := ZeroToken;
      LexerSync.Start(expression, true);
      LexerSync.LexemesStream(expression, TokensFrom(expression, 0, true));
      new;
      Advance();
      Advance();
    }

    /** ADVANCE: `next` moves into `cur` and the lexer is called once; only
        the intended version keeps its token in `next`. Past parser_init it
        only consumes a token that is neither EOF nor an error. */
    method Advance()
      requires Synced()
      requires pulled >= 2 ==> Valid() && cur.kind != Eof && cur.kind != Error
      modifies this, lexer
      ensures Synced() && pulled == old(pulled) + 1 && cur == old(next)
      ensures fillsLookahead ==> next == last
      ensures pulled >= 2 ==> Valid()
    {
      ghost var before := lexer.cur;
      if pulled > 0 {
        LexerSync.LastHeld(expr, true, toks, ends, pulled, lexer.cur, last);
      }
      cur := next;
      var t := lexer.NextToken();
      LexerSync.Pull(expr, true, toks, ends, pulled, before, last, t, lexer.cur);
      if fillsLookahead {
        next := t;
      }
      pulled := pulled + 1;
      last := t;
    }

    /** parse_number: the literal's value (strtod of the lexeme), then
        ADVANCE. */
    method ParseNumber() returns (e: Expr)
      requires Valid() && cur.kind == Number
      modifies this, lexer
      ensures Valid() && pulled == old(pulled) + 1
      ensures old(pulled) - 2 <= |view| && Grammar.OperandYields(view, old(pulled) - 2, Grammar.Parsed(e, pulled - 2))
    {
      SeesCurrent();
      Grammar.NumberStep(view, pulled - 2);
      var value := NumberValue(TextOf(expr, cur));
      Advance();
      e := NumberNode(value);
    }

    /** The switch of parse_prefix_expr: a number, a parenthesised
        expression, or a unary sign; for any other token the node stays
        null and becomes an error node, and the token is not consumed. */
    method ParseOperand() returns (e: Expr)
      requires Valid()
      modifies this, lexer
      ensures Valid() && old(pulled) <= pulled
      ensures old(pulled) - 2 <= |view| && Grammar.OperandYields(view, old(pulled) - 2, Grammar.Parsed(e, pulled - 2))
      decreases |toks| + 2 - pulled, 1
    {
      SeesCurrent();
      match cur.kind
      case Number =>
        e := ParseNumber();
      case LeftParen =>
        e := ParseParenthesised();
      case Plus =>
        e := ParseSigned();
      case Minus =>
        e := ParseSigned();
      case _ =>
        Grammar.MissingStep(view, pulled - 2);
        e := ErrorNode;
    }

    /** The `(` case: ADVANCE, an expression at the lowest precedence, and
        a `)` consumed only if one follows. */
    method ParseParenthesised() returns (e: Expr)
      requires Valid() && cur.kind == LeftParen
      modifies this, lexer
      ensures Valid() && old(pulled) <= pulled
      ensures old(pulled) - 2 <= |view| && Grammar.OperandYields(view, old(pulled) - 2, Grammar.Parsed(e, pulled - 2))
      decreases |toks| + 2 - pulled, 0
    {
      ghost var i := pulled - 2;
      SeesCurrent();
      Advance();
      e := ParseExpression(PrecMin);
      SeesCurrent();
      Grammar.ParenthesisedStep(view, i, Grammar.Parsed(e, pulled - 2));
      if cur.kind == RightParen {
        Advance();
      }
    }

    /** The `+` and `-` cases: ADVANCE and a positive or negative node over
        a further prefix parse. */
    method ParseSigned() returns (e: Expr)
      requires Valid() && (cur.kind == Plus || cur.kind == Minus)
      modifies this, lexer
      ensures Valid() && old(pulled) <= pulled
      ensures old(pulled) - 2 <= |view| && Grammar.OperandYields(view, old(pulled) - 2, Grammar.Parsed(e, pulled - 2))
      decreases |toks| + 2 - pulled, 0
    {
      ghost var i := pulled - 2;
      SeesCurrent();
      var sign := cur.kind;
      Advance();
      var operand := ParsePrefix();
      Grammar.SignedStep(view, i, Grammar.Parsed(operand, pulled - 2));
      e := if sign == Plus then Positive(operand) else Negative(operand);
    }

    /** parse_prefix_expr: an operand, then the implicit multiplication by a
        directly following number or `(`, whose right side is parsed at Div. */
    method ParsePrefix() returns (e: Expr)
      requires Valid()
      modifies this, lexer
      ensures Valid() && old(pulled) <= pulled
      ensures old(pulled) - 2 <= |view| && Grammar.PrefixYields(view, old(pulled) - 2, Grammar.Parsed(e, pulled - 2))
      decreases |toks| + 2 - pulled, 2
    {
      ghost var i := pulled - 2;
      e := ParseOperand();
      ghost var operand := Grammar.Parsed(e, pulled - 2);
      SeesCurrent();
      Grammar.PrefixStep(view, i, operand);
      if cur.kind == Number || cur.kind == LeftParen {
        var right := ParseExpression(PrecDiv);
        Grammar.JuxtapositionStep(view, i, operand, Grammar.Parsed(right, pulled - 2));
        e := Mul(e, right);
      }
    }

    /** parse_infix_expr: the node for `op` over `left` and a right side
        parsed at the operator's precedence. */
    method ParseInfix(op: Token, left: Expr) returns (e: Expr)
      requires Valid() && IsOperator(op.kind)
      modifies this, lexer
      ensures Valid() && old(pulled) <= pulled
      ensures old(pulled) - 2 <= |view| && Grammar.InfixYields(view, op.kind, left, old(pulled) - 2, Grammar.Parsed(e, pulled - 2))
      decreases |toks| + 2 - pulled, 5
    {
      ghost var i := pulled - 2;
      SeesCurrent();
      var right := ParseExpression(PrecedenceOf(op.kind));
      Grammar.InfixStep(view, op.kind, left, i, Grammar.Parsed(right, pulled - 2));
      e := Binary(op.kind, left, right);
    }

    /** The state of the loop in parser_parse_expression: the current token
        is what the Grammar functions read, and the loop goes on from it with
        `left` to `goal`. */
    ghost predicate InLoop(left: Expr, prec: Precedence, goal: Grammar.Parsed)
      reads this, lexer
    {
      && Valid()
      && pulled - 2 <= |view| && Grammar.KindAt(view, pulled - 2) == cur.kind
      && Grammar.LoopYields(view, left, pulled - 2, prec, goal)
    }

    /** parser_parse_expression: a prefix, then, while the current token is
        an operator binding tighter than `prec`, consume it and combine. */
    method ParseExpression(prec: Precedence) returns (e: Expr)
      requires Valid()
      modifies this, lexer
      ensures Valid() && old(pulled) <= pulled
      ensures old(pulled) - 2 <= |view| && Grammar.ExprYields(view, old(pulled) - 2, prec, Grammar.Parsed(e, pulled - 2))
      decreases |toks| + 2 - pulled, 4
    {
      ghost var i := pulled - 2;
      e := ParsePrefix();
      ghost var first := Grammar.Parsed(e, pulled - 2);
      SeesCurrent();
      ghost var goal := Grammar.ParseLoop(view, e, pulled - 2, prec);
      var nextOperator := cur;
      var nextPrec := PrecedenceOf(cur.kind);
      while nextPrec != PrecMin
        invariant InLoop(e, prec, goal)
        invariant nextOperator == cur && nextPrec == PrecedenceOf(cur.kind)
        decreases |toks| + 2 - pulled
      {
        if prec >= nextPrec {
          break;
        }
        e := Combine(prec, nextOperator, e, goal);
        nextOperator := cur;
        nextPrec := PrecedenceOf(cur.kind);
      }
      Grammar.LoopStop(view, e, pulled - 2, prec, goal);
      Grammar.ExprStep(view, i, prec, first, goal);
    }

    /** The body of the loop in parser_parse_expression: ADVANCE past the
        operator, which binds tighter than `prec`, and parse the infix node
        over what has been accumulated; the loop then goes on from the new
        current token to the same end. */
    method Combine(prec: Precedence, op: Token, left: Expr, ghost goal: Grammar.Parsed) returns (e: Expr)
      requires InLoop(left, prec, goal) && op == cur
      requires PrecedenceOf(op.kind) != PrecMin && prec < PrecedenceOf(op.kind)
      modifies this, lexer
      ensures InLoop(e, prec, goal) && old(pulled) < pulled
      decreases |toks| + 2 - pulled, 3
    {
      ghost var at := pulled - 2;
      Advance();
      e := ParseInfix(op, left);
      SeesCurrent();
      Grammar.LoopStep(view, left, at, prec, Grammar.Parsed(e, pulled - 2), goal);
    }
  }
}
