/** The parser of the self-contained header src/eval.h: one current token,
    pulled from the lexer by `parser_advn`, and recursive descent with
    precedence climbing. Each parse method is proved to follow the Grammar
    functions on the header's lexeme stream.

    `parser_advn` ends the process as soon as the lexer yields an error
    token. No parse step consumes an error token (it starts no operand,
    binds no tighter than anything and is not `)`), so once one is current
    the parse pulls nothing more and unwinds to the top, where `Eval`
    reports the abort with the lexer position as it was when the token was
    pulled. Grammar's ConsumesNoError lemmas show that this token is the
    first error token the header would have pulled. */
module StandaloneParser {
  import opened Tokens
  import opened Scanner
  import opened Syntax
  import Grammar
  import StandaloneLexer
  import LexerSync

  class Parser {
    var cur: Token
    const lex: StandaloneLexer.Lexer
    const expr: string
    /** Every token the lexer will yield before EOF, and the cursor after each. */
    ghost const toks: seq<Token>
    ghost const ends: seq<nat>
    /** The lexemes of those tokens: what the Grammar functions read. */
    ghost const stream: seq<Lexeme>
    /** How many tokens have been pulled from the lexer so far. */
    ghost var pulled: nat

    ghost predicate Valid()
      reads this, lex
    {
      && lex.Valid()
      && LexerSync.Streams(expr, toks, stream)
      && LexerSync.Tracks(expr, lex.input, toks, ends, pulled, lex.cur, lex.pos, cur)
    }

    /** The current token is what the Grammar functions read at `pulled - 1`. */
    lemma SeesCurrent()
      requires Valid() && pulled > 0
      ensures pulled - 1 <= |toks|
      ensures Grammar.KindAt(stream, pulled - 1) == cur.kind
    {
      LexerSync.Current(expr, false, toks, ends, stream, pulled, lex.cur, cur);
    }

    /** For a number, the Grammar functions also read the same text. */
    lemma SeesNumber()
      requires Valid() && pulled > 0 && cur.kind == Number
      ensures Grammar.Cur(stream, pulled - 1) == LexemeOf(expr, cur)
    {
      LexerSync.Current(expr, false, toks, ends, stream, pulled, lex.cur, cur);
    }

    /** An error token is one of the stream's tokens, and `pos` counts the
        characters of every token pulled, the error token included. */
    lemma ErrorPosition()
      requires Valid() && pulled > 0 && cur.kind == Error
      ensures pulled <= |toks| && lex.pos == Width(toks, pulled)
    {
      LexerSync.Current(expr, false, toks, ends, stream, pulled, lex.cur, cur);
    }

    /** The set-up in `eval`: a fresh lexer at the start of the expression
        and a zero current token; nothing pulled yet. */
    constructor (expression: string)
      ensures Valid() && fresh(lex)
      ensures expr == expression && pulled == 0 && cur == ZeroToken
      ensures toks == TokensFrom(expression, 0, false) && stream == StreamOf(expression, false)
    {
      expr := expression;
      lex := new StandaloneLexer.Lexer(expression);
      toks := TokensFrom(expression, 0, false);
      ends := EndsFrom(expression, 0, false);
      stream := StreamOf(expression, false);
      pulled := 0;
      cur := ZeroToken;
      LexerSync.Start(expression, false);
      LexerSync.LexemesStream(expression, TokensFrom(expression, 0, false));
    }

    /** parser_advn: pull the next token. It is never called once the
        current token is EOF, nor once it is an error token (where the
        header has already exited). */
    method Advance()
      requires Valid() && (pulled == 0 || (cur.kind != Eof && cur.kind != Error))
      modifies this, lex
      ensures Valid() && pulled == old(pulled) + 1
    {
      ghost var last, before := cur, lex.cur;
      cur := lex.NextToken();
      LexerSync.PullTracked(expr, lex.input, toks, ends, pulled, before, old(lex.pos), last, cur, lex.cur);
      pulled := pulled + 1;
    }

    /** parser_parse_number: the literal's value, then advance. */
    method ParseNumber() returns (e: Expr)
      requires Valid() && pulled > 0 && cur.kind == Number
      modifies this, lex
      ensures Valid() && pulled == old(pulled) + 1
      ensures old(pulled) - 1 <= |stream| && Grammar.OperandYields(stream, old(pulled) - 1, Grammar.Parsed(e, pulled - 1))
    {
      SeesCurrent();
      SeesNumber();
      Grammar.NumberStep(stream, pulled - 1);
      var value := NumberValue(TextOf(expr, cur));
      Advance();
      e := NumberNode(value);
    }

    /** The switch of parser_parse_prefix_expr: a number, a parenthesised
        expression, or a unary sign; any other token gives an error node and
        is not consumed. Proved to follow Grammar.ParseOperand. */
    method ParseOperand() returns (e: Expr)
      requires Valid() && pulled > 0
      modifies this, lex
      ensures Valid() && old(pulled) <= pulled
      ensures old(pulled) - 1 <= |stream| && Grammar.OperandYields(stream, old(pulled) - 1, Grammar.Parsed(e, pulled - 1))
      decreases |toks| + 1 - pulled, 1
    {
      SeesCurrent();
      match cur.kind
      case Number =>
        e := ParseNumber();
      case LeftParen =>
        e := ParseParenthesised();
      case Plus =>
        e := ParseSigned();
      case Minus =>
        e := ParseSigned();
      case _ =>
        Grammar.MissingStep(stream, pulled - 1);
        e := ErrorNode;
    }

    /** The `(` case: advance, parse an expression at the lowest precedence,
        and consume a `)` only if one follows. */
    method ParseParenthesised() returns (e: Expr)
      requires Valid() && pulled > 0 && cur.kind == LeftParen
      modifies this, lex
      ensures Valid() && old(pulled) <= pulled
      ensures old(pulled) - 1 <= |stream| && Grammar.OperandYields(stream, old(pulled) - 1, Grammar.Parsed(e, pulled - 1))
      decreases |toks| + 1 - pulled, 0
    {
      ghost var i := pulled - 1;
      SeesCurrent();
      Advance();
      e := ParseExpr(PrecMin);
      SeesCurrent();
      Grammar.ParenthesisedStep(stream, i, Grammar.Parsed(e, pulled - 1));
      if cur.kind == RightParen {
        Advance();
      }
    }

    /** The `+` and `-` cases: advance and wrap a further prefix parse in a
        positive or negative node. */
    method ParseSigned() returns (e: Expr)
      requires Valid() && pulled > 0 && (cur.kind == Plus || cur.kind == Minus)
      modifies this, lex
      ensures Valid() && old(pulled) <= pulled
      ensures old(pulled) - 1 <= |stream| && Grammar.OperandYields(stream, old(pulled) - 1, Grammar.Parsed(e, pulled - 1))
      decreases |toks| + 1 - pulled, 0
    {
      ghost var i := pulled - 1;
      SeesCurrent();
      var sign := cur.kind;
      Advance();
      var operand := ParsePrefix();
      Grammar.SignedStep(stream, i, Grammar.Parsed(operand, pulled - 1));
      e := if sign == Plus then Positive(operand) else Negative(operand);
    }

    /** parser_parse_prefix_expr: an operand, then the implicit
        multiplication by a directly following number or `(`, whose right
        side is parsed at Div. Proved to follow Grammar.ParsePrefix. */
    method ParsePrefix() returns (e: Expr)
      requires Valid() && pulled > 0
      modifies this, lex
      ensures Valid() && old(pulled) <= pulled
      ensures old(pulled) - 1 <= |stream| && Grammar.PrefixYields(stream, old(pulled) - 1, Grammar.Parsed(e, pulled - 1))
      decreases |toks| + 1 - pulled, 2
    {
      ghost var i := pulled - 1;
      e := ParseOperand();
      ghost var operand := Grammar.Parsed(e, pulled - 1);
      SeesCurrent();
      Grammar.PrefixStep(stream, i, operand);
      if cur.kind == Number || cur.kind == LeftParen {
        var right := ParseExpr(PrecDiv);
        Grammar.JuxtapositionStep(stream, i, operand, Grammar.Parsed(right, pulled - 1));
        e := Mul(e, right);
      }
    }

    /** parser_parse_infix_expr: the node for `op` over `left` and a right
        side parsed at the operator's precedence. */
    method ParseInfix(op: Token, left: Expr) returns (e: Expr)
      requires Valid() && pulled > 0 && IsOperator(op.kind)
      modifies this, lex
      ensures Valid() && old(pulled) <= pulled
      ensures old(pulled) - 1 <= |stream| && Grammar.InfixYields(stream, op.kind, left, old(pulled) - 1, Grammar.Parsed(e, pulled - 1))
      decreases |toks| + 1 - pulled, 5
    {
      ghost var i := pulled - 1;
      var right := ParseExpr(PrecedenceOf(op.kind));
      Grammar.InfixStep(stream, op.kind, left, i, Grammar.Parsed(right, pulled - 1));
      e := Binary(op.kind, left, right);
    }

    /** The state of the loop in parser_parse_expr: the current token is
        what the Grammar functions read, and the loop goes on from it with
        `left` to `goal`. */
    ghost predicate InLoop(left: Expr, prec: Precedence, goal: Grammar.Parsed)
      reads this, lex
    {
      && Valid() && pulled > 0
      && pulled - 1 <= |stream| && Grammar.KindAt(stream, pulled - 1) == cur.kind
      && Grammar.LoopYields(stream, left, pulled - 1, prec, goal)
    }

    /** parser_parse_expr: a prefix, then, while the current token is an
        operator binding tighter than `prec`, consume it and combine. Proved
        to follow Grammar.ParseExpr. */
    method ParseExpr(prec: Precedence) returns (e: Expr)
      requires Valid() && pulled > 0
      modifies this, lex
      ensures Valid() && old(pulled) <= pulled
      ensures old(pulled) - 1 <= |stream| && Grammar.ExprYields(stream, old(pulled) - 1, prec, Grammar.Parsed(e, pulled - 1))
      decreases |toks| + 1 - pulled, 4
    {
      ghost var i := pulled - 1;
      e := ParsePrefix();
      ghost var first := Grammar.Parsed(e, pulled - 1);
      ghost var goal := Grammar.ParseLoop(stream, e, pulled - 1, prec);
      var nextOperator := cur;
      var nextPrec := PrecedenceOf(cur.kind);
      SeesCurrent();
      while nextPrec != PrecMin
        invariant InLoop(e, prec, goal)
        invariant nextOperator == cur && nextPrec == PrecedenceOf(cur.kind)
        decreases |toks| + 1 - pulled
      {
        if prec >= nextPrec {
          break;
        }
        e := Combine(prec, nextOperator, e, goal);
        nextOperator := cur;
        nextPrec := PrecedenceOf(cur.kind);
      }
      Grammar.LoopStop(stream, e, pulled - 1, prec, goal);
      Grammar.ExprStep(stream, i, prec, first, goal);
    }

    /** The body of the loop in parser_parse_expr: advance past the
        operator, which binds tighter than `prec`, and parse the infix node
        over what has been accumulated; the loop then goes on from the new
        current token to the same end. */
    method Combine(prec: Precedence, op: Token, left: Expr, ghost goal: Grammar.Parsed) returns (e: Expr)
      requires InLoop(left, prec, goal) && op == cur
      requires PrecedenceOf(op.kind) != PrecMin && prec < PrecedenceOf(op.kind)
      modifies this, lex
      ensures InLoop(e, prec, goal) && old(pulled) < pulled
      decreases |toks| + 1 - pulled, 3
    {
      ghost var at := pulled - 1;
      Advance();
      e := ParseInfix(op, left);
      Grammar.LoopStep(stream, left, at, prec, Grammar.Parsed(e, pulled - 1), goal);
      SeesCurrent();
    }
  }
}
