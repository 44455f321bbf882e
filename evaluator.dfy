/** The evaluator of the split version, src/include/eval.h: a structural
    walk of the tree, and `eval_`, which parses with src/parser.c and
    evaluates the result. */
module Evaluator {
  import opened Wrappers
  import opened Scanner
  import opened Syntax
  import Grammar
  import Parser

  function Product(a: real, b: real): real
  {
    a * b
  }

  function Quotient(a: real, b: real): real
    requires b != 0.0
  {
    a / b
  }

  /** Whether a division node occurs anywhere in the tree. */
  predicate HasDivision(e: Expr)
  {
    match e
    case ErrorNode => false
    case NumberNode(_) => false
    case Positive(x) => HasDivision(x)
    case Negative(x) => HasDivision(x)
    case Div(_, _) => true
    case _ => HasDivision(e.left) || HasDivision(e.right)
  }

  /** eval_expression. `pow` stands for the C library's `pow`. There is no
      zero test before `/`: a division by exactly zero, which in the C
      doubles gives an infinity or a NaN, is None here; every other node
      has a value, so a tree without a division always has one. An error
      node, and any kind the switch does not list, is 0. */
  function EvalExpression(e: Expr, pow: (real, real) -> real): (r: Option<real>)
    ensures !HasDivision(e) ==> r.Some?
  {
    match e
    case ErrorNode => Some(0.0)
    case NumberNode(v) => Some(v)
    case Positive(x) => EvalExpression(x, pow)
    case Negative(x) =>
      var v :- EvalExpression(x, pow);
      Some(-v)
    case Add(l, r) =>
      var a :- EvalExpression(l, pow);
      var b :- EvalExpression(r, pow);
      Some(a + b)
    case Sub(l, r) =>
      var a :- EvalExpression(l, pow);
      var b :- EvalExpression(r, pow);
      Some(a - b)
    case Mul(l, r) =>
      var a :- EvalExpression(l, pow);
      var b :- EvalExpression(r, pow);
      Some(Product(a, b))
    case Div(l, r) =>
      var a :- EvalExpression(l, pow);
      var b :- EvalExpression(r, pow);
      if b == 0.0 then None else Some(Quotient(a, b))
    case Pow(l, r) =>
      var a :- EvalExpression(l, pow);
      var b :- EvalExpression(r, pow);
      Some(pow(a, b))
  }

  /** What eval_ returns, logging aside: the tree parsed from the first
      token at the lowest precedence, evaluated. With ADVANCE as intended
      the parse reads the lexeme stream with identifiers; as written it
      reads nothing but the zero token. */
  function Evaluate(expression: string, fillsLookahead: bool, pow: (real, real) -> real): (r: Option<real>)
    ensures !fillsLookahead ==> r == Some(0.0)
  {
    var ts := if fillsLookahead then StreamOf(expression, true) else Parser.ZeroStream;
    Grammar.ErrorStops(Parser.ZeroStream, 0, PrecMin);
    EvalExpression(Grammar.ParseExpr(ts, 0, PrecMin).tree, pow)
  }

  /** eval_: parser_init, one expression at the lowest precedence, and
      eval_expression on the tree. */
  method Eval(expression: string, fillsLookahead: bool, pow: (real, real) -> real) returns (r: Option<real>)
    ensures r == Evaluate(expression, fillsLookahead, pow)
  {
    var p := new Parser.Parser(expression, fillsLookahead);
    var tree := p.ParseExpression(PrecMin);
    r := EvalExpression(tree, pow);
  }

  /** As written, eval_ returns 0 for every expression: the parser sees
      only the zero token, an error token, so it builds a single error node
      and consumes nothing. */
  lemma AsWrittenIsZero(expression: string, pow: (real, real) -> real)
    ensures Grammar.ParseExpr(Parser.ZeroStream, 0, PrecMin) == Grammar.Parsed(ErrorNode, 0)
    ensures Evaluate(expression, false, pow) == Some(0.0)
  {
    Grammar.ErrorStops(Parser.ZeroStream, 0, PrecMin);
  }
}
