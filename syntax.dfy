/** The tree and precedence declarations of src/include/parser.h (repeated in
    src/eval.h), and the operator precedence table of src/parser.c and
    src/eval.h. */
module Syntax {
  import opened Tokens
  import opened Wrappers

  /** An expression node: exactly one of nine kinds. A number carries its
      value, the two unary kinds one operand, the five binary kinds a left and
      a right child. ErrorNode, the zero kind, is what a zero-filled node
      reads as and what the parser builds for a missing operand. */
  datatype Expr =
    | ErrorNode
    | NumberNode(value: real)
    | Positive(operand: Expr)
    | Negative(operand: Expr)
    | Add(left: Expr, right: Expr)
    | Sub(left: Expr, right: Expr)
    | Mul(left: Expr, right: Expr)
    | Div(left: Expr, right: Expr)
    | Pow(left: Expr, right: Expr)

  /** Binding power, ordered as the C enum: Min < Term < Mul < Div < Pow < Max. */
  newtype Precedence = p: int | 0 <= p <= 5

  const PrecMin: Precedence := 0
  const PrecTerm: Precedence := 1
  const PrecMul: Precedence := 2
  const PrecDiv: Precedence := 3
  const PrecPow: Precedence := 4
  const PrecMax: Precedence := 5

  /** The precedence table: + and - at Term, * at Mul, / at Div, ^ at Pow;
      every other kind has no entry and reads as Min, which ends the infix
      loop. The operators are thus exactly + - * / ^, and Max, the bound the
      table is declared against, is no kind's precedence. */
  function PrecedenceOf(k: TokenKind): (p: Precedence)
    ensures p != PrecMin <==> k in {Plus, Minus, Star, Slash, Caret}
    ensures p < PrecMax
  {
    match k
    case Plus | Minus => PrecTerm
    case Star => PrecMul
    case Slash => PrecDiv
    case Caret => PrecPow
    case _ => PrecMin
  }

  predicate IsOperator(k: TokenKind)
  {
    PrecedenceOf(k) != PrecMin
  }

  /** The node parse_infix_expr builds for an operator token: a binary node
      of the operator's own kind, keeping the accumulated left operand as its
      left child and the freshly parsed operand as its right child. */
  function Binary(op: TokenKind, left: Expr, right: Expr): (node: Expr)
    requires IsOperator(op)
    ensures !node.ErrorNode? && !node.NumberNode? && !node.Positive? && !node.Negative?
    ensures node.left == left && node.right == right
    ensures (node.Add? <==> op == Plus) && (node.Sub? <==> op == Minus)
    ensures (node.Mul? <==> op == Star) && (node.Div? <==> op == Slash)
    ensures node.Pow? <==> op == Caret
  {
    match op
    case Plus => Add(left, right)
    case Minus => Sub(left, right)
    case Star => Mul(left, right)
    case Slash => Div(left, right)
    case Caret => Pow(left, right)
  }

  // ---------------------------------------------------------------------
  // The tables as the C code declares them

  /** The position of a kind in the TOKEN_ enum of src/include/lexer.h. */
  function Ordinal(k: TokenKind): nat
  {
    match k
    case Error => 0 case Eof => 1 case Identifier => 2 case Number => 3
    case Plus => 4 case Minus => 5 case Star => 6 case Slash => 7
    case Caret => 8 case LeftParen => 9 case RightParen => 10
    case Comma => 11 case Max => 12
  }

  /** The position of a kind in the TK_ enum of src/eval.h, which declares
      no identifier, comma or max kinds. */
  function StandaloneOrdinal(k: TokenKind): nat
    requires k != Identifier && k != Comma && k != Max
  {
    match k
    case Error => 0 case Eof => 1 case Number => 2
    case Plus => 3 case Minus => 4 case Star => 5 case Slash => 6
    case Caret => 7 case LeftParen => 8 case RightParen => 9
  }

  /** `precedence[]` of src/parser.c: C sizes an array with designated
      initialisers by its highest index, so it has entries up to TOKEN_CARET. */
  const SplitTable: seq<Precedence> :=
    [PrecMin, PrecMin, PrecMin, PrecMin, PrecTerm, PrecTerm, PrecMul, PrecDiv, PrecPow]

  /** `precedence[]` of src/eval.h, with entries up to TK_CARET. */
  const StandaloneTable: seq<Precedence> :=
    [PrecMin, PrecMin, PrecMin, PrecTerm, PrecTerm, PrecMul, PrecDiv, PrecPow]

  /** Reading `table[index]`: None when the index is past the array. */
  function Lookup(table: seq<Precedence>, index: nat): Option<Precedence>
  {
    if index < |table| then Some(table[index]) else None
  }

  /** Wherever a C table has an entry, it agrees with `PrecedenceOf`: a
      finite check, kind by kind, that the hand transcription of the two C
      tables and the match of `PrecedenceOf` say the same. */
  lemma TablesAgree(k: TokenKind)
    ensures Lookup(SplitTable, Ordinal(k)).Some? ==> Lookup(SplitTable, Ordinal(k)).value == PrecedenceOf(k)
    ensures k != Identifier && k != Comma && k != Max && Lookup(StandaloneTable, StandaloneOrdinal(k)).Some?
      ==> Lookup(StandaloneTable, StandaloneOrdinal(k)).value == PrecedenceOf(k)
  {
  }

  /** The kinds `(` and `)` lie past the end of both tables: a finite check
      on the transcribed tables and enum positions. */
  lemma ParenthesesOutsideTables()
    ensures Lookup(SplitTable, Ordinal(RightParen)) == None
    ensures Lookup(SplitTable, Ordinal(LeftParen)) == None
    ensures Lookup(StandaloneTable, StandaloneOrdinal(RightParen)) == None
    ensures Lookup(StandaloneTable, StandaloneOrdinal(LeftParen)) == None
  {
  }
}
