/** What one call of the lexer computes, as functions of the input and the
    scan cursor. Both lexers of the repository (src/eval.h and src/lexer.c)
    are proved to compute `Scan`; they differ only in whether a letter or `_`
    starts an identifier. The input is a C string: reading at or past its end,
    or at an embedded NUL, yields '\0', and the cursor never passes a '\0'. */
module Scanner {
  import opened Tokens

  function Peek(input: string, i: nat): char
  {
    if i < |input| then input[i] else '\0'
  }

  predicate IsDigit(c: char)
  {
    '0' <= c <= '9'
  }

  /** The whitespace both lexers skip: space, CR, LF and tab. */
  predicate IsSpace(c: char)
  {
    c == ' ' || c == '\r' || c == '\n' || c == '\t'
  }

  predicate IsAlpha(c: char)
  {
    ('a' <= c <= 'z') || ('A' <= c <= 'Z') || c == '_'
  }

  /** The first position at or after `p` that does not hold whitespace. */
  function SkipSpace(input: string, p: nat): (s: nat)
    requires p <= |input|
    ensures p <= s <= |input|
    ensures forall k | p <= k < s :: IsSpace(input[k])
    ensures !IsSpace(Peek(input, s))
    decreases |input| - p
  {
    if IsSpace(Peek(input, p)) then SkipSpace(input, p + 1) else p
  }

  /** The end of the maximal run of digits starting at `p`. */
  function DigitsEnd(input: string, p: nat): (q: nat)
    requires p <= |input|
    ensures p <= q <= |input|
    ensures forall k | p <= k < q :: IsDigit(input[k])
    ensures !IsDigit(Peek(input, q))
    decreases |input| - p
  {
    if IsDigit(Peek(input, p)) then DigitsEnd(input, p + 1) else p
  }

  /** The end of the maximal run of letters, digits and `_` starting at `p`. */
  function IdentEnd(input: string, p: nat): (q: nat)
    requires p <= |input|
    ensures p <= q <= |input|
    ensures forall k | p <= k < q :: IsAlpha(input[k]) || IsDigit(input[k])
    ensures !IsAlpha(Peek(input, q)) && !IsDigit(Peek(input, q))
    decreases |input| - p
  {
    if IsAlpha(Peek(input, p)) || IsDigit(Peek(input, p)) then IdentEnd(input, p + 1) else p
  }

  /** The end of the rest of a number whose first digit ends at `p`: more
      digits, then at most one '.' and one further run of digits. */
  function NumberEnd(input: string, p: nat): (q: nat)
    requires p <= |input|
    ensures p <= q <= |input|
    ensures forall k | p <= k < q :: IsDigit(input[k]) || input[k] == '.'
    ensures forall j, k | p <= j < k < q :: !(input[j] == '.' && input[k] == '.')
    ensures !IsDigit(Peek(input, q))
    ensures (forall k | p <= k < q :: input[k] != '.') ==> Peek(input, q) != '.'
  {
    var d := DigitsEnd(input, p);
    if Peek(input, d) == '.' then DigitsEnd(input, d + 1) else d
  }

  /** The kind of a one-character token: the seven symbols, else Error.
      It is never a kind that stands for more or less than one character. */
  function SymbolKind(c: char): (k: TokenKind)
    ensures k != Error <==> c in "()+-*/^"
    ensures k != Eof && k != Number && k != Identifier && k != Comma && k != Max
  {
    match c
    case '(' => LeftParen
    case ')' => RightParen
    case '+' => Plus
    case '-' => Minus
    case '*' => Star
    case '/' => Slash
    case '^' => Caret
    case _ => Error
  }

  /** A token and the cursor after it. */
  datatype Step = Step(token: Token, next: nat)

  /** One call of the lexer from cursor `p`. */
  function Scan(input: string, p: nat, identifiers: bool): (r: Step)
    requires p <= |input|
    ensures p <= r.token.start && r.next == r.token.start + r.token.length <= |input|
    ensures r.token.kind == Eof <==> Peek(input, r.token.start) == '\0'
    ensures r.token.kind == Eof ==> r.token.length == 0
    ensures r.token.kind != Eof ==> p < r.next
  {
    var s := SkipSpace(input, p);
    if Peek(input, s) == '\0' then
      Step(Token(Eof, s, 0), s)
    else if IsDigit(input[s]) then
      var q := NumberEnd(input, s + 1);
      Step(Token(Number, s, q - s), q)
    else if identifiers && IsAlpha(input[s]) then
      var q := IdentEnd(input, s + 1);
      Step(Token(Identifier, s, q - s), q)
    else
      Step(Token(SymbolKind(input[s]), s, 1), s + 1)
  }

  /** A scanning step skips only whitespace before its token, and the token
      covers neither whitespace nor a NUL. */
  lemma ScanCovers(input: string, p: nat, identifiers: bool)
    requires p <= |input|
    ensures var r := Scan(input, p, identifiers);
      && (forall k | p <= k < r.token.start :: IsSpace(input[k]))
      && (forall k | r.token.start <= k < r.next :: !IsSpace(input[k]) && input[k] != '\0')
  {
  }

  /** At the end of the input the lexer stays put: the scan after an EOF
      token yields EOF again, at the same place, and does not move. */
  lemma EofStays(input: string, p: nat, identifiers: bool)
    requires p <= |input| && Scan(input, p, identifiers).token.kind == Eof
    ensures var q := Scan(input, p, identifiers).next;
      Scan(input, q, identifiers) == Step(Token(Eof, q, 0), q)
  {
  }

  /** Scanning again from where a token starts yields the same step: only
      whitespace lies before it. */
  lemma ScanFromStart(input: string, p: nat, identifiers: bool)
    requires p <= |input|
    ensures var r := Scan(input, p, identifiers);
      r.token.start <= |input| && Scan(input, r.token.start, identifiers) == r
  {
    var s := SkipSpace(input, p);
    assert SkipSpace(input, s) == s;
  }

  /** An error token of the stream is one character wide, found again by
      scanning from where it starts, and leaves the cursor right after it. */
  lemma ErrorTokenShape(input: string, n: nat)
    requires n < |TokensFrom(input, 0, false)| && TokensFrom(input, 0, false)[n].kind == Error
    ensures |EndsFrom(input, 0, false)| == |TokensFrom(input, 0, false)|
    ensures var t := TokensFrom(input, 0, false)[n];
      && t.length == 1 && t.start < |input|
      && EndsFrom(input, 0, false)[n] == t.start + 1
      && Scan(input, t.start, false).token == t
  {
    var ends := EndsFrom(input, 0, false);
    ScanAt(input, 0, false, n);
    ScanFromStart(input, StartOf(0, ends, n), false);
  }

  /** The text of a number token: a digit, then digits and at most one '.'. */
  predicate IsNumberText(s: string)
  {
    && |s| > 0
    && IsDigit(s[0])
    && (forall k | 0 <= k < |s| :: IsDigit(s[k]) || s[k] == '.')
    && (forall j, k | 0 <= j < k < |s| :: !(s[j] == '.' && s[k] == '.'))
  }

  /** The tokens the lexer yields from cursor `p`, up to (not including) EOF. */
  function TokensFrom(input: string, p: nat, identifiers: bool): (ts: seq<Token>)
    requires p <= |input|
    ensures forall k | 0 <= k < |ts| ::
      ts[k].kind != Eof && p <= ts[k].start && ts[k].start + ts[k].length <= |input|
    decreases |input| - p
  {
    var r := Scan(input, p, identifiers);
    if r.token.kind == Eof then [] else [r.token] + TokensFrom(input, r.next, identifiers)
  }

  /** Where the lexer's cursor stands after each token `TokensFrom` yields. */
  function EndsFrom(input: string, p: nat, identifiers: bool): seq<nat>
    requires p <= |input|
    decreases |input| - p
  {
    var r := Scan(input, p, identifiers);
    if r.token.kind == Eof then [] else [r.next] + EndsFrom(input, r.next, identifiers)
  }

  /** The cursor from which the k-th token is scanned. */
  function StartOf(p: nat, ends: seq<nat>, k: nat): nat
    requires k <= |ends|
  {
    if k == 0 then p else ends[k - 1]
  }

  /** `EndsFrom` records one cursor for every token `TokensFrom` yields. */
  lemma {:induction false} EndsMatchTokens(input: string, p: nat, identifiers: bool)
    requires p <= |input|
    ensures |EndsFrom(input, p, identifiers)| == |TokensFrom(input, p, identifiers)|
    decreases |input| - p
  {
    var r := Scan(input, p, identifiers);
    if r.token.kind != Eof {
      EndsMatchTokens(input, r.next, identifiers);
    }
  }

  /** Scanning from the cursor left by the first k tokens yields token k
      and moves to its end; once all tokens are taken, it yields EOF. */
  lemma {:induction false} ScanAt(input: string, p: nat, identifiers: bool, k: nat)
    requires p <= |input|
    requires k <= |TokensFrom(input, p, identifiers)|
    ensures |EndsFrom(input, p, identifiers)| == |TokensFrom(input, p, identifiers)|
    ensures var ts, es := TokensFrom(input, p, identifiers), EndsFrom(input, p, identifiers);
      var st := StartOf(p, es, k);
      && st <= |input|
      && (k < |ts| ==> Scan(input, st, identifiers) == Step(ts[k], es[k]))
      && (k == |ts| ==> Scan(input, st, identifiers).token.kind == Eof)
    decreases |input| - p
  {
    EndsMatchTokens(input, p, identifiers);
    var r := Scan(input, p, identifiers);
    if r.token.kind != Eof && k > 0 {
      var ts, es := TokensFrom(input, p, identifiers), EndsFrom(input, p, identifiers);
      var rest, ends := TokensFrom(input, r.next, identifiers), EndsFrom(input, r.next, identifiers);
      assert ts == [r.token] + rest;
      assert es == [r.next] + ends;
      ScanAt(input, r.next, identifiers, k - 1);
      assert StartOf(p, es, k) == StartOf(r.next, ends, k - 1);
      if k < |ts| {
        assert ts[k] == rest[k - 1] && es[k] == ends[k - 1];
      }
    }
  }

  /** The lexeme of each token, in order. */
  function Lexemes(input: string, ts: seq<Token>): (ls: seq<Lexeme>)
    ensures |ls| == |ts|
  {
    if ts == [] then [] else [LexemeOf(input, ts[0])] + Lexemes(input, ts[1..])
  }

  lemma {:induction false} LexemeAt(input: string, ts: seq<Token>, k: nat)
    requires k < |ts|
    ensures Lexemes(input, ts)[k] == LexemeOf(input, ts[k])
  {
    if k > 0 {
      LexemeAt(input, ts[1..], k - 1);
    }
  }

  /** The lexeme stream of a whole input. */
  function StreamOf(input: string, identifiers: bool): seq<Lexeme>
  {
    Lexemes(input, TokensFrom(input, 0, identifiers))
  }

  // ---------------------------------------------------------------------
  // Properties of one scanning step

  /** End of input (or an embedded NUL) after whitespace gives an EOF token
      of length 0 that does not move the cursor, and scanning again from there
      gives the same EOF token: EOF repeats. */
  lemma EofRepeats(input: string, p: nat, identifiers: bool)
    requires p <= |input|
    requires Scan(input, p, identifiers).token.kind == Eof
    ensures var r := Scan(input, p, identifiers);
      && r.next == r.token.start && r.token.length == 0
      && Scan(input, r.next, identifiers) == r
      && TokensFrom(input, r.next, identifiers) == []
  {
    var r := Scan(input, p, identifiers);
    assert SkipSpace(input, r.next) == r.next;
  }

  /** A number token is a maximal digit run, optionally followed by one '.'
      and another digit run; the character after it is no digit, and no '.'
      when the token has none. */
  lemma NumberTokenShape(input: string, p: nat, identifiers: bool)
    requires p <= |input|
    ensures var r := Scan(input, p, identifiers);
      && (r.token.kind == Number <==> IsDigit(Peek(input, r.token.start)))
      && (r.token.kind == Number ==>
            var text := TextOf(input, r.token);
            && IsNumberText(text)
            && !IsDigit(Peek(input, r.next))
            && ('.' !in text ==> Peek(input, r.next) != '.'))
  {
    var r := Scan(input, p, identifiers);
    if r.token.kind == Number {
      var s, q := r.token.start, r.next;
      var text := TextOf(input, r.token);
      assert text == input[s..q];
      assert forall k | 0 <= k < |text| :: text[k] == input[s + k];
      if '.' !in text {
        forall k | s + 1 <= k < q ensures input[k] != '.' {
          assert text[k - s] == input[k];
        }
      }
    }
  }

  /** With identifiers enabled, a letter or `_` starts an identifier that
      extends over letters, digits and `_`, and stops before any other
      character. Without them, no identifier is ever produced. */
  lemma IdentifierTokenShape(input: string, p: nat, identifiers: bool)
    requires p <= |input|
    ensures var r := Scan(input, p, identifiers);
      && (r.token.kind == Identifier <==> identifiers && IsAlpha(Peek(input, r.token.start)))
      && (r.token.kind == Identifier ==>
            var text := TextOf(input, r.token);
            && (forall k | 0 <= k < |text| :: IsAlpha(text[k]) || IsDigit(text[k]))
            && !IsAlpha(Peek(input, r.next)) && !IsDigit(Peek(input, r.next)))
  {
    var r := Scan(input, p, identifiers);
    if r.token.kind == Identifier {
      var text := TextOf(input, r.token);
      assert text == input[r.token.start..r.next];
      assert forall k | 0 <= k < |text| :: text[k] == input[r.token.start + k];
    }
  }

  /** Every other character gives a one-character token: `( ) + - * / ^` of
      their own kind, anything else (a letter too, when identifiers are off)
      an Error token. Comma and Max are never produced. */
  lemma SymbolTokenShape(input: string, p: nat, identifiers: bool)
    requires p <= |input|
    ensures var r := Scan(input, p, identifiers);
      var c := Peek(input, r.token.start);
      && r.token.kind != Comma && r.token.kind != Max
      && (c != '\0' && !IsDigit(c) && !(identifiers && IsAlpha(c)) ==>
            r.token.length == 1 && r.token.kind == SymbolKind(c)
            && (r.token.kind == Error <==> c !in "()+-*/^"))
  {
  }

  // ---------------------------------------------------------------------
  // Identifiers

  predicate NoLetters(input: string)
  {
    forall k | 0 <= k < |input| :: !IsAlpha(input[k])
  }

  /** Without letters or `_`, the two lexers yield the same tokens: only
      those characters start an identifier. */
  lemma {:induction false} NoLettersSameTokens(input: string, p: nat)
    requires p <= |input| && NoLetters(input)
    ensures TokensFrom(input, p, true) == TokensFrom(input, p, false)
    decreases |input| - p
  {
    var r := Scan(input, p, false);
    assert Scan(input, p, true) == r;
    if r.token.kind != Eof {
      NoLettersSameTokens(input, r.next);
    }
  }

  /** One scanning step of the two lexers: the same step, unless the
      token starts with a letter or `_`, where the header's lexer yields an
      error token and the split lexer an identifier. */
  lemma ScanPair(input: string, p: nat)
    requires p <= |input|
    ensures var r, r' := Scan(input, p, false), Scan(input, p, true);
      r == r' || (r.token.kind == Error && r'.token.kind == Identifier)
  {
  }

  /** Two token sequences that are equal up to a point where the first
      shows an error token and the second an identifier; past that point
      they may differ. */
  predicate SameUpToLetter(hs: seq<Token>, us: seq<Token>)
  {
    if hs == [] then us == []
    else
      && us != []
      && ((hs[0].kind == Error && us[0].kind == Identifier)
          || (hs[0] == us[0] && SameUpToLetter(hs[1..], us[1..])))
  }

  /** Up to the first letter or `_`, the two lexers yield the same tokens;
      there the header's lexer yields an error token and the split lexer an
      identifier. */
  lemma {:induction false} TokensUpToFirstLetter(input: string, p: nat)
    requires p <= |input|
    ensures SameUpToLetter(TokensFrom(input, p, false), TokensFrom(input, p, true))
    decreases |input| - p
  {
    var r, r' := Scan(input, p, false), Scan(input, p, true);
    ScanPair(input, p);
    if r.token.kind != Eof {
      var hs, us := TokensFrom(input, p, false), TokensFrom(input, p, true);
      assert hs == [r.token] + TokensFrom(input, r.next, false);
      assert us == [r'.token] + TokensFrom(input, r'.next, true);
      if r == r' {
        TokensUpToFirstLetter(input, r.next);
        assert hs[1..] == TokensFrom(input, r.next, false) && us[1..] == TokensFrom(input, r.next, true);
      }
    }
  }

  /** So as long as the header's tokens hold no error before index k, the
      two streams both end before k or both reach it, and show at k the
      same token or an error token facing an identifier. */
  lemma {:induction false} SameUpToLetterAt(hs: seq<Token>, us: seq<Token>, k: nat)
    requires SameUpToLetter(hs, us)
    requires forall j | 0 <= j < k && j < |hs| :: hs[j].kind != Error
    ensures k < |hs| <==> k < |us|
    ensures k < |hs| ==> hs[k] == us[k] || (hs[k].kind == Error && us[k].kind == Identifier)
  {
    if hs != [] && k > 0 {
      assert hs[0].kind != Error;
      assert forall j | 0 <= j < k - 1 && j < |hs| - 1 :: hs[1..][j] == hs[j + 1];
      SameUpToLetterAt(hs[1..], us[1..], k - 1);
    }
  }

  // ---------------------------------------------------------------------
  // Inputs made of one-character tokens

  /** An input in which every character is a token of its own: no
      whitespace, no NUL, no '.', and no digit directly after a digit. */
  predicate OneCharTokens(input: string)
  {
    forall k | 0 <= k < |input| ::
      && input[k] != '\0' && !IsSpace(input[k]) && input[k] != '.'
      && (IsDigit(input[k]) && k + 1 < |input| ==> !IsDigit(input[k + 1]))
  }

  /** The kind of the token a single character forms with identifiers off. */
  function CharKind(c: char): TokenKind
  {
    if IsDigit(c) then Number else SymbolKind(c)
  }

  /** One scanning step there takes exactly the character at the cursor. */
  lemma OneCharScan(input: string, p: nat)
    requires OneCharTokens(input) && p < |input|
    ensures Scan(input, p, false) == Step(Token(CharKind(input[p]), p, 1), p + 1)
  {
    var c := input[p];
    assert c != '\0' && !IsSpace(c) && c != '.';
    assert SkipSpace(input, p) == p;
    if IsDigit(c) {
      assert p + 1 < |input| ==> !IsDigit(input[p + 1]) && input[p + 1] != '.';
      assert DigitsEnd(input, p + 1) == p + 1;
    }
  }

  /** In such an input, the lexer yields one token per character from `p` on. */
  lemma {:induction false} OneCharTokensFrom(input: string, p: nat)
    requires OneCharTokens(input) && p <= |input|
    ensures var ts := TokensFrom(input, p, false);
      && |ts| == |input| - p
      && forall k | 0 <= k < |ts| :: ts[k] == Token(CharKind(input[p + k]), p + k, 1)
    decreases |input| - p
  {
    if p < |input| {
      var c := input[p];
      OneCharScan(input, p);
      OneCharTokensFrom(input, p + 1);
      var ts, rest := TokensFrom(input, p, false), TokensFrom(input, p + 1, false);
      assert ts == [Token(CharKind(c), p, 1)] + rest;
      forall k | 0 < k < |ts|
        ensures ts[k] == Token(CharKind(input[p + k]), p + k, 1)
      {
        assert ts[k] == rest[k - 1];
      }
    } else {
      assert Scan(input, p, false).token.kind == Eof;
    }
  }

  /** ... and its lexeme stream holds each character as its own lexeme. */
  lemma OneCharStream(input: string)
    requires OneCharTokens(input)
    ensures var ls := StreamOf(input, false);
      && |ls| == |input|
      && forall k | 0 <= k < |input| :: ls[k] == Lexeme(CharKind(input[k]), [input[k]])
  {
    var ts := TokensFrom(input, 0, false);
    OneCharTokensFrom(input, 0);
    forall k | 0 <= k < |input|
      ensures StreamOf(input, false)[k] == Lexeme(CharKind(input[k]), [input[k]])
    {
      LexemeAt(input, ts, k);
      assert input[k..k + 1] == [input[k]];
    }
  }

  // ---------------------------------------------------------------------
  // The token stream loses nothing but whitespace

  /** The input with whitespace removed. */
  function Squeeze(s: string): string
  {
    if s == [] then [] else (if IsSpace(s[0]) then [] else [s[0]]) + Squeeze(s[1..])
  }

  /** The texts of the tokens, concatenated. */
  function Joined(input: string, ts: seq<Token>): string
  {
    if ts == [] then [] else TextOf(input, ts[0]) + Joined(input, ts[1..])
  }

  /** The first NUL at or after `p`, or the end: where the C string ends. */
  function NulFrom(input: string, p: nat): (q: nat)
    requires p <= |input|
    ensures p <= q <= |input| && Peek(input, q) == '\0'
    ensures forall k | p <= k < q :: input[k] != '\0'
    decreases |input| - p
  {
    if p == |input| || input[p] == '\0' then p else NulFrom(input, p + 1)
  }

  lemma {:induction false} SqueezeAppend(a: string, b: string)
    ensures Squeeze(a + b) == Squeeze(a) + Squeeze(b)
  {
    if a != [] {
      var head := if IsSpace(a[0]) then [] else [a[0]];
      calc {
        Squeeze(a + b);
        { assert (a + b)[0] == a[0]; assert (a + b)[1..] == a[1..] + b; }
        head + Squeeze(a[1..] + b);
        { SqueezeAppend(a[1..], b); }
        head + (Squeeze(a[1..]) + Squeeze(b));
        Squeeze(a) + Squeeze(b);
      }
    } else {
      assert a + b == b;
    }
  }

  lemma {:induction false} SqueezeKeeps(s: string)
    requires forall k | 0 <= k < |s| :: !IsSpace(s[k])
    ensures Squeeze(s) == s
  {
    if s != [] {
      SqueezeKeeps(s[1..]);
    }
  }

  lemma {:induction false} SqueezeDrops(s: string)
    requires forall k | 0 <= k < |s| :: IsSpace(s[k])
    ensures Squeeze(s) == []
  {
    if s != [] {
      SqueezeDrops(s[1..]);
    }
  }

  lemma {:induction false} NulFromSkips(input: string, p: nat, q: nat)
    requires p <= q <= |input|
    requires forall k | p <= k < q :: input[k] != '\0'
    ensures NulFrom(input, p) == NulFrom(input, q)
    decreases q - p
  {
    if p < q {
      NulFromSkips(input, p + 1, q);
    }
  }

  /** Round trip: the token texts, in order, are exactly the characters of
      the C string from the cursor on, with whitespace removed. */
  lemma {:induction false} TokensCoverInput(input: string, p: nat, identifiers: bool)
    requires p <= |input|
    ensures Joined(input, TokensFrom(input, p, identifiers)) == Squeeze(input[p..NulFrom(input, p)])
    decreases |input| - p
  {
    var r := Scan(input, p, identifiers);
    var s, q := r.token.start, r.next;
    ScanCovers(input, p, identifiers);
    NulFromSkips(input, p, s);
    if r.token.kind == Eof {
      assert NulFrom(input, s) == s;
      SqueezeDrops(input[p..s]);
    } else {
      NulFromSkips(input, s, q);
      var n := NulFrom(input, q);
      TokensCoverInput(input, q, identifiers);
      JoinedStep(input, p, identifiers);
      SqueezeSpaceThenWord(input, p, s, q, n);
    }
  }

  /** One step of `Joined` over `TokensFrom`: the first token's text, then
      the texts of the tokens after it. */
  lemma JoinedStep(input: string, p: nat, identifiers: bool)
    requires p <= |input|
    requires Scan(input, p, identifiers).token.kind != Eof
    ensures var r := Scan(input, p, identifiers);
      Joined(input, TokensFrom(input, p, identifiers))
        == input[r.token.start..r.next] + Joined(input, TokensFrom(input, r.next, identifiers))
  {
    var r := Scan(input, p, identifiers);
    var rest := TokensFrom(input, r.next, identifiers);
    var ts := TokensFrom(input, p, identifiers);
    assert ts == [r.token] + rest;
    assert ts[1..] == rest;
  }

  /** A stretch of the input that is all whitespace squeezes to nothing. */
  lemma SqueezeSpaceSlice(input: string, p: nat, s: nat)
    requires p <= s <= |input|
    requires forall k | p <= k < s :: IsSpace(input[k])
    ensures Squeeze(input[p..s]) == []
  {
    var white := input[p..s];
    assert forall k | 0 <= k < |white| :: white[k] == input[p + k];
    SqueezeDrops(white);
  }

  /** A stretch of the input with no whitespace squeezes to itself. */
  lemma SqueezeWordSlice(input: string, s: nat, q: nat)
    requires s <= q <= |input|
    requires forall k | s <= k < q :: !IsSpace(input[k])
    ensures Squeeze(input[s..q]) == input[s..q]
  {
    var word := input[s..q];
    assert forall k | 0 <= k < |word| :: word[k] == input[s + k];
    SqueezeKeeps(word);
  }

  /** Squeezing whitespace followed by a word followed by more input keeps
      exactly the word and the squeezed remainder. */
  lemma SqueezeSpaceThenWord(input: string, p: nat, s: nat, q: nat, n: nat)
    requires p <= s <= q <= n <= |input|
    requires forall k | p <= k < s :: IsSpace(input[k])
    requires forall k | s <= k < q :: !IsSpace(input[k])
    ensures Squeeze(input[p..n]) == input[s..q] + Squeeze(input[q..n])
  {
    SqueezeSpaceSlice(input, p, s);
    SqueezeWordSlice(input, s, q);
    SqueezeSplit(input, p, s, n);
    SqueezeSplit(input, s, q, n);
  }

  /** Squeezing two adjacent stretches of the input squeezes each. */
  lemma SqueezeSplit(input: string, a: nat, b: nat, c: nat)
    requires a <= b <= c <= |input|
    ensures Squeeze(input[a..c]) == Squeeze(input[a..b]) + Squeeze(input[b..c])
  {
    assert input[a..c] == input[a..b] + input[b..c];
    SqueezeAppend(input[a..b], input[b..c]);
  }

  // ---------------------------------------------------------------------
  // The value of a number literal

  function DigitValue(c: char): nat
  {
    if IsDigit(c) then c as int - '0' as int else 0
  }

  /** The value of a run of decimal digits, most significant first. */
  function DigitsValue(ds: string): nat
  {
    if ds == [] then 0 else DigitsValue(ds[..|ds| - 1]) * 10 + DigitValue(ds[|ds| - 1])
  }

  /** The position of the first '.', or the length when there is none. */
  function DotIndex(s: string): (k: nat)
    ensures k <= |s|
    ensures forall j | 0 <= j < k :: s[j] != '.'
    ensures k < |s| ==> s[k] == '.'
  {
    if s == [] then 0 else if s[0] == '.' then 0 else 1 + DotIndex(s[1..])
  }

  /** The value of the digits after '.': the first digit counts tenths,
      and each digit adds a tenth of itself and of what follows it. */
  function FractionValue(ds: string): real
  {
    if ds == [] then 0.0 else (DigitValue(ds[0]) as real + FractionValue(ds[1..])) / 10.0
  }

  lemma {:induction false} FractionBelowOne(ds: string)
    ensures 0.0 <= FractionValue(ds) < 1.0
  {
    if ds != [] {
      FractionBelowOne(ds[1..]);
    }
  }

  /** The exact decimal value of a number token's text: the integer part
      plus the value of the fraction digits. It is never negative: a
      literal has no sign, a leading `-` being a unary operator. */
  function NumberValue(text: string): (r: real)
    ensures 0.0 <= r
  {
    var k := DotIndex(text);
    if k == |text| then DigitsValue(text) as real
    else
      FractionBelowOne(text[k + 1..]);
      DigitsValue(text[..k]) as real + FractionValue(text[k + 1..])
  }

  /** A literal's value lies between its integer part and the next integer:
      the digits after '.' only ever add a fraction below one. */
  lemma NumberValueBounds(text: string)
    ensures var whole := DigitsValue(text[..DotIndex(text)]) as real;
      whole <= NumberValue(text) < whole + 1.0
  {
    var k := DotIndex(text);
    if k < |text| {
      FractionBelowOne(text[k + 1..]);
    } else {
      assert text[..k] == text;
    }
  }

  function Pow10(n: nat): (p: nat)
    ensures 1 <= p
  {
    if n == 0 then 1 else 10 * Pow10(n - 1)
  }

  /** `x` times 10^n, one factor of ten at a time. */
  function Shifted(x: real, n: nat): real
    decreases n
  {
    if n == 0 then x else Shifted(10.0 * x, n - 1)
  }

  lemma {:induction false} ShiftedSum(a: real, b: real, n: nat)
    ensures Shifted(a + b, n) == Shifted(a, n) + Shifted(b, n)
    decreases n
  {
    if n > 0 {
      ShiftedSum(10.0 * a, 10.0 * b, n - 1);
    }
  }

  lemma {:induction false} ShiftedTen(x: real, n: nat)
    ensures Shifted(10.0 * x, n) == 10.0 * Shifted(x, n)
    decreases n
  {
    if n > 0 {
      ShiftedTen(10.0 * x, n - 1);
    }
  }

  lemma {:induction false} ShiftedIsProduct(x: real, n: nat)
    ensures Shifted(x, n) == x * (Pow10(n) as real)
    decreases n
  {
    if n > 0 {
      ShiftedIsProduct(10.0 * x, n - 1);
    }
  }

  /** Digits written after others shift those others left one place each. */
  lemma {:induction false} DigitsValueAppend(a: string, b: string)
    ensures DigitsValue(a + b) as real == Shifted(DigitsValue(a) as real, |b|) + DigitsValue(b) as real
    decreases |b|
  {
    if b == [] {
      assert a + b == a;
    } else {
      var b' := b[..|b| - 1];
      assert (a + b)[..|a + b| - 1] == a + b';
      DigitsValueAppend(a, b');
      ShiftedTen(DigitsValue(a) as real, |b'|);
    }
  }

  /** The first of a run of digits counts its value shifted left past the
      others. */
  lemma DigitsValueCons(ds: string)
    requires ds != []
    ensures DigitsValue(ds) as real == Shifted(DigitValue(ds[0]) as real, |ds| - 1) + DigitsValue(ds[1..]) as real
  {
    assert [ds[0]] + ds[1..] == ds;
    DigitsValueAppend([ds[0]], ds[1..]);
    assert DigitsValue([ds[0]]) == DigitValue(ds[0]) by {
      assert [ds[0]][..0] == [];
    }
  }

  /** The fraction digits `ds`, shifted left by |ds| places, are the
      integer they spell. */
  lemma {:induction false} FractionShifted(ds: string)
    ensures Shifted(FractionValue(ds), |ds|) == DigitsValue(ds) as real
    decreases |ds|
  {
    if ds != [] {
      var rest := ds[1..];
      var d := DigitValue(ds[0]) as real;
      FractionShifted(rest);
      DigitsValueCons(ds);
      assert Shifted(FractionValue(ds), |ds|) == Shifted(d + FractionValue(rest), |rest|);
      ShiftedSum(d, FractionValue(rest), |rest|);
    }
  }

  /** A literal's text with its first '.' taken out. */
  function DigitsOf(text: string): string
  {
    var k := DotIndex(text);
    if k == |text| then text else text[..k] + text[k + 1..]
  }

  /** How many characters follow the first '.'; 0 when there is none. */
  function Places(text: string): nat
  {
    var k := DotIndex(text);
    if k == |text| then 0 else |text| - k - 1
  }

  /** Shifting left by n places is multiplying by 10^n, and undoing it is
      dividing by 10^n. */
  lemma ShiftedQuotient(x: real, n: nat, y: real)
    requires Shifted(x, n) == y
    ensures x * (Pow10(n) as real) == y
    ensures x == y / (Pow10(n) as real)
  {
    ShiftedIsProduct(x, n);
  }

  /** A literal's value, shifted left by the number of digits after its
      '.', is the integer its digits spell. */
  lemma NumberValueShifted(text: string)
    ensures Shifted(NumberValue(text), Places(text)) == DigitsValue(DigitsOf(text)) as real
  {
    var k := DotIndex(text);
    if k < |text| {
      var whole, frac := text[..k], text[k + 1..];
      FractionShifted(frac);
      DigitsValueAppend(whole, frac);
      ShiftedSum(DigitsValue(whole) as real, FractionValue(frac), |frac|);
      assert Shifted(NumberValue(text), |frac|) == DigitsValue(whole + frac) as real;
    } else {
      assert text[..k] == text;
    }
  }

  /** A literal's value is the integer its digits spell, '.' left out,
      divided by ten to the number of digits after the '.': `12.50` is
      1250 / 100, `7` is 7 / 1. */
  lemma NumberValueExact(text: string)
    ensures NumberValue(text) * (Pow10(Places(text)) as real) == DigitsValue(DigitsOf(text)) as real
    ensures NumberValue(text) == (DigitsValue(DigitsOf(text)) as real) / (Pow10(Places(text)) as real)
  {
    NumberValueShifted(text);
    ShiftedQuotient(NumberValue(text), Places(text), DigitsValue(DigitsOf(text)) as real);
  }
}
