/** What a parser may rely on about the lexer it pulls tokens from. After
    `pulled` calls of the lexer's next-token operation on `input`, the
    lexer's cursor stands where `Scan` leaves it after that many tokens, and
    the token returned last is the `pulled`-th token of `TokensFrom`, or an
    EOF token once those are used up. Both parsers keep this in their
    invariant; the lemmas below are the only places it is unfolded. */
module LexerSync {
  import opened Tokens
  import opened Scanner
  import Grammar

  /** `toks` and `ends` are what successive `Scan` steps from the start of
      the input yield: the k-th step, from the cursor the previous one left,
      returns token k and cursor `ends[k]`, and the step after the last token
      returns EOF. */
  ghost predicate Scanned(input: string, identifiers: bool, toks: seq<Token>, ends: seq<nat>)
  {
    && |ends| == |toks|
    && forall k {:trigger Scan(input, StartOf(0, ends, k), identifiers)} | 0 <= k <= |toks| ::
         && StartOf(0, ends, k) <= |input|
         && (k < |toks| ==> Scan(input, StartOf(0, ends, k), identifiers) == Step(toks[k], ends[k]))
         && (k == |toks| ==> Scan(input, StartOf(0, ends, k), identifiers).token.kind == Eof)
  }

  /** The whole token stream of an input is `Scanned`. */
  lemma StreamScanned(input: string, identifiers: bool)
    ensures Scanned(input, identifiers, TokensFrom(input, 0, identifiers), EndsFrom(input, 0, identifiers))
  {
    var toks, ends := TokensFrom(input, 0, identifiers), EndsFrom(input, 0, identifiers);
    EndsMatchTokens(input, 0, identifiers);
    forall k | 0 <= k <= |toks|
      ensures StartOf(0, ends, k) <= |input|
      ensures k < |toks| ==> Scan(input, StartOf(0, ends, k), identifiers) == Step(toks[k], ends[k])
      ensures k == |toks| ==> Scan(input, StartOf(0, ends, k), identifiers).token.kind == Eof
    {
      ScanAt(input, 0, identifiers, k);
    }
  }

  /** Every scan from cursor `c` yields EOF. (The quantifier over the single
      value `c` only gives the fact a trigger, so that it is used where a
      scan from `c` is in view and nowhere else.) */
  ghost predicate Exhausted(input: string, identifiers: bool, c: nat)
  {
    && c <= |input|
    && forall q {:trigger Scan(input, q, identifiers)} | q == c && q <= |input| ::
         Scan(input, q, identifiers).token.kind == Eof
  }

  ghost predicate Pulled(input: string, identifiers: bool, toks: seq<Token>, ends: seq<nat>,
                         pulled: nat, cursor: nat, last: Token)
  {
    && Scanned(input, identifiers, toks, ends)
    && (pulled <= |toks| ==> cursor == StartOf(0, ends, pulled))
    && (pulled == 0 ==> last == ZeroToken)
    && (0 < pulled <= |toks| ==> last == toks[pulled - 1])
    && (pulled > |toks| ==> last.kind == Eof && last.length == 0 && Exhausted(input, identifiers, cursor))
  }

  /** A fresh lexer at the start of the input, nothing pulled. */
  lemma Start(input: string, identifiers: bool)
    ensures Pulled(input, identifiers, TokensFrom(input, 0, identifiers),
                   EndsFrom(input, 0, identifiers), 0, 0, ZeroToken)
  {
    StreamScanned(input, identifiers);
  }

  /** One more call of the next-token operation, which performs one `Scan`
      step from the cursor: it returns the next token of the stream, or,
      once those are used up, EOF (of length zero) every time, and the count
      goes up by one. */
  lemma Pull(input: string, identifiers: bool, toks: seq<Token>, ends: seq<nat>,
             pulled: nat, cursor: nat, last: Token, t: Token, after: nat)
    requires Pulled(input, identifiers, toks, ends, pulled, cursor, last)
    requires cursor <= |input| && Step(t, after) == Scan(input, cursor, identifiers)
    ensures Pulled(input, identifiers, toks, ends, pulled + 1, after, t)
    ensures pulled < |toks| ==> t == toks[pulled]
    ensures pulled >= |toks| ==> t.kind == Eof && t.length == 0
  {
    if pulled >= |toks| {
      assert Scan(input, cursor, identifiers).token.kind == Eof;
      EofStays(input, cursor, identifiers);
    }
  }

  /** `t` is what a parser holds for index `k` of the stream: token `k`,
      or an EOF token past the last one. */
  ghost predicate Holds(toks: seq<Token>, k: nat, t: Token)
  {
    && (k < |toks| ==> t == toks[k])
    && (k >= |toks| ==> t.kind == Eof)
  }

  /** The token returned last is held for index `pulled - 1`. */
  lemma LastHeld(input: string, identifiers: bool, toks: seq<Token>, ends: seq<nat>,
                 pulled: nat, cursor: nat, last: Token)
    requires Pulled(input, identifiers, toks, ends, pulled, cursor, last) && pulled > 0
    ensures Holds(toks, pulled - 1, last)
  {
  }

  /** `stream` holds the lexeme of every token of `toks`, in order. (The
      per-index fact is triggered only where a token's lexeme is asked for,
      so a parser's proof sees the stream as a plain sequence.) */
  ghost predicate Streams(input: string, toks: seq<Token>, stream: seq<Lexeme>)
  {
    && |stream| == |toks|
    && forall k {:trigger LexemeOf(input, toks[k])} | 0 <= k < |toks| :: stream[k] == LexemeOf(input, toks[k])
  }

  lemma LexemesStream(input: string, toks: seq<Token>)
    ensures Streams(input, toks, Lexemes(input, toks))
  {
    forall k | 0 <= k < |toks|
      ensures Lexemes(input, toks)[k] == LexemeOf(input, toks[k])
    {
      LexemeAt(input, toks, k);
    }
  }

  /** A token the parser holds for index `k` of the stream (token `k`, or
      EOF past the last one) is what the Grammar functions read there: the
      same kind, and for anything but EOF the same text. */
  lemma Sees(input: string, toks: seq<Token>, stream: seq<Lexeme>, k: nat, t: Token)
    requires Streams(input, toks, stream)
    requires k < |toks| ==> t == toks[k]
    requires k >= |toks| ==> t.kind == Eof
    ensures Grammar.KindAt(stream, k) == t.kind
    ensures t.kind != Eof ==> Grammar.Cur(stream, k) == LexemeOf(input, t)
  {
    if k < |toks| {
      assert stream[k] == LexemeOf(input, toks[k]);
    }
  }

  /** The last token pulled is what the Grammar functions read at index
      `pulled - 1` of the lexeme stream. */
  lemma Current(input: string, identifiers: bool, toks: seq<Token>, ends: seq<nat>, stream: seq<Lexeme>,
                pulled: nat, cursor: nat, last: Token)
    requires Pulled(input, identifiers, toks, ends, pulled, cursor, last) && pulled > 0
    requires Streams(input, toks, stream)
    ensures Grammar.KindAt(stream, pulled - 1) == last.kind
    ensures last.kind != Eof ==> Grammar.Cur(stream, pulled - 1) == LexemeOf(input, last)
  {
    Sees(input, toks, stream, pulled - 1, last);
  }

  function Min(a: nat, b: nat): nat
  {
    if a <= b then a else b
  }

  /** `Pulled` for the header's lexer, which is never called after it has
      returned EOF, and which also counts, in `pos`, the characters of the
      tokens it has returned: that count is the width of the tokens pulled
      so far, the EOF token adding nothing. */
  ghost predicate Tracks(expr: string, input: string, toks: seq<Token>, ends: seq<nat>,
                         pulled: nat, cursor: nat, pos: nat, last: Token)
  {
    && input == expr
    && Pulled(expr, false, toks, ends, pulled, cursor, last)
    && pulled <= |toks| + 1
    && pos == Width(toks, Min(pulled, |toks|))
  }

  /** `Pull` for the header's lexer: the count grows by the new token's length. */
  lemma PullTracked(expr: string, input: string, toks: seq<Token>, ends: seq<nat>,
                    pulled: nat, cursor: nat, pos: nat, last: Token, t: Token, after: nat)
    requires Tracks(expr, input, toks, ends, pulled, cursor, pos, last)
    requires pulled == 0 || last.kind != Eof
    requires cursor <= |input| && Step(t, after) == Scan(input, cursor, false)
    ensures Tracks(expr, input, toks, ends, pulled + 1, after, pos + t.length, t)
  {
    Pull(expr, false, toks, ends, pulled, cursor, last, t, after);
  }
}
