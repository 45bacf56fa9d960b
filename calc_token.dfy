/**
 * The calculator's lexer as a hand-written scanner. The source builds it
 * from parser combinators: each token is the keyword `with`, an identifier,
 * a decimal `u32`, a punctuation character or, as a fallback, an error
 * character; tokens are padded by whitespace, repeated, and the whole input
 * must be consumed. Positions count characters, as spans do in the source.
 */
module CalcToken {
  import opened Wrappers

  newtype u32 = x: int | 0 <= x < 0x1_0000_0000

  datatype Token =
    | With
    | Ident(name: string)
    | Number(value: u32)
    | Comma
    | Colon
    | Plus
    | Minus
    | Star
    | Slash
    | LParen
    | RParen
    | Error(c: char)

  /** A half-open range `start..end` of character positions. */
  datatype Span = Span(start: nat, end: nat)

  datatype Spanned = Spanned(token: Token, span: Span)

  datatype LexError =
      /** Emitted once per error character, with its one-character span. */
    | UnexpectedChar(span: Span, found: char)
      /** The input was not consumed to its end. */
    | EndNotReached

  /** The result of a run of the lexer that did not panic. */
  datatype Recovery = Recovery(output: Option<seq<Spanned>>, errors: seq<LexError>)

  /** The strict result: the tokens, or the errors when there is any. */
  datatype Parsed = Ok(tokens: seq<Spanned>) | Err(errors: seq<LexError>)

  /** A computation that either completes or panics (`unwrap` of an error). */
  datatype Run<T> = Completed(value: T) | Panicked

  /** Rust's `char::is_whitespace`: the Unicode `White_Space` property. */
  predicate IsWhitespace(c: char)
  {
    var n := c as int;
    (9 <= n <= 13) || n == 0x20 || n == 0x85 || n == 0xA0 || n == 0x1680
    || (0x2000 <= n <= 0x200A) || n == 0x2028 || n == 0x2029 || n == 0x202F
    || n == 0x205F || n == 0x3000
  }

  predicate IsLetter(c: char)
  {
    ('a' <= c <= 'z') || ('A' <= c <= 'Z')
  }

  predicate IsDigit(c: char)
  {
    '0' <= c <= '9'
  }

  ghost predicate AllWhitespace(s: string, i: nat, j: nat)
    requires i <= j <= |s|
  {
    forall p :: i <= p < j ==> IsWhitespace(s[p])
  }

  /** The end of the whitespace run starting at `i`. */
  function SkipWhitespace(s: string, i: nat): (j: nat)
    requires i <= |s|
    ensures i <= j <= |s|
    ensures AllWhitespace(s, i, j)
    ensures j == |s| || !IsWhitespace(s[j])
    decreases |s| - i
  {
    if i < |s| && IsWhitespace(s[i]) then SkipWhitespace(s, i + 1) else i
  }

  /** The end of the letter run starting at `i`. */
  function LetterRunEnd(s: string, i: nat): (j: nat)
    requires i <= |s|
    ensures i <= j <= |s|
    ensures forall p :: i <= p < j ==> IsLetter(s[p])
    ensures j == |s| || !IsLetter(s[j])
    decreases |s| - i
  {
    if i < |s| && IsLetter(s[i]) then LetterRunEnd(s, i + 1) else i
  }

  /** The end of the digit run starting at `i`. */
  function DigitRunEnd(s: string, i: nat): (j: nat)
    requires i <= |s|
    ensures i <= j <= |s|
    ensures forall p :: i <= p < j ==> IsDigit(s[p])
    ensures j == |s| || !IsDigit(s[j])
    decreases |s| - i
  {
    if i < |s| && IsDigit(s[i]) then DigitRunEnd(s, i + 1) else i
  }

  function DigitValue(c: char): nat
    requires IsDigit(c)
  {
    c as int - '0' as int
  }

  function DigitChar(d: nat): char
    requires d < 10
  {
    ('0' as int + d) as char
  }

  /** The value of a string of decimal digits (`u32::from_str` without the bound). */
  function DigitsValue(d: string): nat
    requires forall p :: 0 <= p < |d| ==> IsDigit(d[p])
  {
    if |d| == 0 then 0 else DigitsValue(d[..|d| - 1]) * 10 + DigitValue(d[|d| - 1])
  }

  /** The decimal text of `v`, without leading zeros. */
  function Decimal(v: nat): (d: string)
    ensures |d| >= 1
  {
    if v < 10 then [DigitChar(v)] else Decimal(v / 10) + [DigitChar(v % 10)]
  }

  /** The text a token stands for. */
  function Text(t: Token): string
  {
    match t
    case With => "with"
    case Ident(name) => name
    case Number(v) => Decimal(v as nat)
    case Comma => ","
    case Colon => ":"
    case Plus => "+"
    case Minus => "-"
    case Star => "*"
    case Slash => "/"
    case LParen => "("
    case RParen => ")"
    case Error(c) => [c]
  }

  /** The punctuation tokens, one per character. */
  function Punctuation(c: char): (t: Option<Token>)
    ensures t.Some? ==> Text(t.value) == [c]
  {
    match c
    case ',' => Some(Comma)
    case ':' => Some(Colon)
    case '+' => Some(Plus)
    case '-' => Some(Minus)
    case '*' => Some(Star)
    case '/' => Some(Slash)
    case '(' => Some(LParen)
    case ')' => Some(RParen)
    case _ => None
  }

  predicate StartsWithKeyword(s: string, i: nat)
  {
    i + 4 <= |s| && s[i..i + 4] == "with"
  }

  /**
   * `text::int(10)`: a single `0`, or a nonzero digit followed by any
   * digits; returns the end of the number text.
   */
  function NumberEnd(s: string, i: nat): (j: nat)
    requires i < |s| && IsDigit(s[i])
    ensures i < j <= |s|
  {
    if s[i] == '0' then i + 1 else DigitRunEnd(s, i + 1)
  }

  /** One token scanned at `i`: the token and its end, or `None` on a `u32` overflow. */
  datatype Scan = Scanned(token: Token, end: nat) | Overflow

  /** The alternatives in the order the source tries them. */
  function ScanToken(s: string, i: nat): (r: Scan)
    requires i < |s|
    ensures r.Scanned? ==> i < r.end <= |s|
  {
    if StartsWithKeyword(s, i) then Scanned(With, i + 4)
    else if IsLetter(s[i]) then
      var j := LetterRunEnd(s, i);
      Scanned(Ident(s[i..j]), j)
    else if IsDigit(s[i]) then
      var j := NumberEnd(s, i);
      var v := DigitsValue(s[i..j]);
      if v < 0x1_0000_0000 then Scanned(Number(v as u32), j) else Overflow
    else if Punctuation(s[i]).Some? then Scanned(Punctuation(s[i]).value, i + 1)
    else Scanned(Error(s[i]), i + 1)
  }

  /** The error an error token emits. */
  function Emitted(t: Spanned): seq<LexError>
  {
    if t.token.Error? then [UnexpectedChar(t.span, t.token.c)] else []
  }

  /** The tokens from position `i` on, with the errors they emitted. */
  datatype Lexed = Lexed(tokens: seq<Spanned>, errors: seq<LexError>)

  /** The padded, repeated token parser from `i` to the end of the input. */
  function LexFrom(s: string, i: nat): Run<Lexed>
    requires i <= |s|
    decreases |s| - i
  {
    var j := SkipWhitespace(s, i);
    if j == |s| then Completed(Lexed([], []))
    else
      match ScanToken(s, j)
      case Overflow => Panicked
      case Scanned(t, k) =>
        match LexFrom(s, k)
        case Panicked => Panicked
        case Completed(rest) =>
          var first := Spanned(t, Span(j, k));
          Completed(Lexed([first] + rest.tokens, Emitted(first) + rest.errors))
  }

  /**
   * The lexer with error recovery. A non-empty input made only of
   * whitespace yields no token, so the repetition gives the whitespace
   * back and the final end-of-input check fails.
   */
  function LexRecovery(s: string): Run<Recovery>
  {
    if |s| > 0 && SkipWhitespace(s, 0) == |s| then Completed(Recovery(None, [EndNotReached]))
    else
      match LexFrom(s, 0)
      case Panicked => Panicked
      case Completed(lexed) => Completed(Recovery(Some(lexed.tokens), lexed.errors))
  }

  /** `lexer().parse(s)`: the tokens when no error was emitted. */
  function Lex(s: string): Run<Parsed>
  {
    match LexRecovery(s)
    case Panicked => Panicked
    case Completed(r) =>
      Completed(if r.errors == [] && r.output.Some? then Ok(r.output.value) else Err(r.errors))
  }

  // ---------------------------------------------------------------------
  // The reference description: the tokens tile the input.

  /**
   * From position `i`, the input is whitespace, then the text of the first
   * token exactly at its span, then the rest tiled the same way, and
   * whitespace up to the end.
   */
  ghost predicate Tiles(s: string, i: nat, tokens: seq<Spanned>)
    requires i <= |s|
    decreases |tokens|
  {
    if tokens == [] then AllWhitespace(s, i, |s|)
    else
      var sp := tokens[0].span;
      i <= sp.start < sp.end <= |s|
      && AllWhitespace(s, i, sp.start)
      && s[sp.start..sp.end] == Text(tokens[0].token)
      && Tiles(s, sp.end, tokens[1..])
  }

  /** The errors are exactly those of the error tokens, in order. */
  function EmittedAll(tokens: seq<Spanned>): seq<LexError>
  {
    if tokens == [] then [] else Emitted(tokens[0]) + EmittedAll(tokens[1..])
  }

  // ---------------------------------------------------------------------
  // Numbers

  lemma DigitsValuePositive(d: string)
    requires |d| >= 1 && forall p :: 0 <= p < |d| ==> IsDigit(d[p])
    requires d[0] != '0'
    ensures DigitsValue(d) >= 1
    decreases |d|
  {
    if |d| > 1 {
      DigitsValuePositive(d[..|d| - 1]);
    }
  }

  /** The digits of a number without leading zeros are the decimal text of its value. */
  lemma {:induction false} DecimalOfDigits(d: string)
    requires |d| >= 1 && forall p :: 0 <= p < |d| ==> IsDigit(d[p])
    requires |d| == 1 || d[0] != '0'
    ensures Decimal(DigitsValue(d)) == d
    decreases |d|
  {
    var init := d[..|d| - 1];
    var last := DigitValue(d[|d| - 1]);
    assert DigitChar(last) == d[|d| - 1];
    if |d| == 1 {
      assert DigitsValue(init) == 0;
      assert d == [d[0]];
    } else {
      DigitsValuePositive(init);
      DecimalOfDigits(init);
      var v := DigitsValue(d);
      assert v == DigitsValue(init) * 10 + last;
      assert v / 10 == DigitsValue(init) && v % 10 == last;
      assert d == init + [d[|d| - 1]];
    }
  }

  // ---------------------------------------------------------------------
  // One token

  /** The scanned token's text is exactly the input it covers. */
  lemma ScanTokenText(s: string, i: nat)
    requires i < |s|
    requires ScanToken(s, i).Scanned?
    ensures s[i..ScanToken(s, i).end] == Text(ScanToken(s, i).token)
  {
    if !StartsWithKeyword(s, i) && !IsLetter(s[i]) && IsDigit(s[i]) {
      var j := NumberEnd(s, i);
      DecimalOfDigits(s[i..j]);
    } else if !StartsWithKeyword(s, i) && !IsLetter(s[i]) && !IsDigit(s[i]) {
      assert s[i..i + 1] == [s[i]];
    }
  }

  /** `with` is tried first: it wins over an identifier starting with it. */
  lemma ScanKeywordFirst(s: string, i: nat)
    requires i < |s|
    ensures ScanToken(s, i) == Scanned(With, i + 4) <==> StartsWithKeyword(s, i)
  {
  }

  /** An identifier is a maximal run of one or more ASCII letters that is not the keyword. */
  lemma ScanIdent(s: string, i: nat)
    requires i < |s|
    ensures ScanToken(s, i).Scanned? && ScanToken(s, i).token.Ident? <==>
      !StartsWithKeyword(s, i) && IsLetter(s[i])
    ensures ScanToken(s, i).Scanned? && ScanToken(s, i).token.Ident? ==>
      var j := ScanToken(s, i).end;
      (forall p :: i <= p < j ==> IsLetter(s[p])) && (j == |s| || !IsLetter(s[j]))
  {
  }

  /** A number is `0` alone, or the whole digit run that starts with a nonzero digit. */
  lemma ScanNumber(s: string, i: nat)
    requires i < |s|
    ensures ScanToken(s, i).Scanned? && ScanToken(s, i).token.Number? ==> IsDigit(s[i])
    ensures ScanToken(s, i).Scanned? && ScanToken(s, i).token.Number? && s[i] != '0' ==>
      var j := ScanToken(s, i).end;
      j == |s| || !IsDigit(s[j])
    ensures ScanToken(s, i).Scanned? && ScanToken(s, i).token.Number? && s[i] == '0' ==>
      ScanToken(s, i) == Scanned(Number(0), i + 1)
    ensures ScanToken(s, i).Overflow? <==>
      IsDigit(s[i]) && DigitsValue(s[i..NumberEnd(s, i)]) >= 0x1_0000_0000
  {
    if IsDigit(s[i]) && s[i] == '0' {
      assert s[i..i + 1][..0] == [];
    }
  }

  /** Each punctuation character is its own one-character token. */
  lemma ScanPunctuation(s: string, i: nat)
    requires i < |s|
    requires Punctuation(s[i]).Some?
    ensures ScanToken(s, i) == Scanned(Punctuation(s[i]).value, i + 1)
  {
  }

  /** Punctuation tokens are distinct: the mapping is one-to-one. */
  lemma PunctuationInjective(c: char, d: char)
    requires Punctuation(c).Some? && Punctuation(d) == Punctuation(c)
    ensures c == d
  {
    assert Text(Punctuation(c).value) == [c];
    assert Text(Punctuation(d).value) == [d];
  }

  /** Any other character becomes an error token of its own. */
  lemma ScanError(s: string, i: nat)
    requires i < |s|
    ensures ScanToken(s, i).Scanned? && ScanToken(s, i).token.Error? <==>
      !IsLetter(s[i]) && !IsDigit(s[i]) && Punctuation(s[i]).None?
    ensures ScanToken(s, i).Scanned? && ScanToken(s, i).token.Error? ==>
      ScanToken(s, i) == Scanned(Error(s[i]), i + 1)
  {
  }

  // ---------------------------------------------------------------------
  // The token stream

  /** The lexer's output tiles the input and carries one error per error token. */
  lemma {:induction false} LexFromTiles(s: string, i: nat)
    requires i <= |s|
    requires LexFrom(s, i).Completed?
    ensures Tiles(s, i, LexFrom(s, i).value.tokens)
    ensures LexFrom(s, i).value.errors == EmittedAll(LexFrom(s, i).value.tokens)
    decreases |s| - i
  {
    var j := SkipWhitespace(s, i);
    if j < |s| {
      var k := ScanToken(s, j).end;
      LexFromTiles(s, k);
      ScanTokenText(s, j);
      var first := Spanned(ScanToken(s, j).token, Span(j, k));
      var toks := [first] + LexFrom(s, k).value.tokens;
      assert toks[0] == first && toks[1..] == LexFrom(s, k).value.tokens;
    }
  }

  /**
   * Every token of the output is what the scanner reads at its span's start,
   * ending at its span's end, so the scanner's rules (keyword first, maximal
   * identifiers, `0` alone, one-character punctuation and errors) hold for
   * each token the lexer returns.
   */
  lemma {:induction false} LexFromScans(s: string, i: nat, a: nat)
    requires i <= |s|
    requires LexFrom(s, i).Completed? && a < |LexFrom(s, i).value.tokens|
    ensures var t := LexFrom(s, i).value.tokens[a];
      t.span.start < |s| && ScanToken(s, t.span.start) == Scanned(t.token, t.span.end)
    decreases |s| - i
  {
    var j := SkipWhitespace(s, i);
    if a > 0 {
      LexFromScans(s, ScanToken(s, j).end, a - 1);
    }
  }

  /** With recovery, each output token is the scanner's token at its start. */
  lemma LexScans(s: string, a: nat)
    requires LexRecovery(s).Completed? && LexRecovery(s).value.output.Some?
    requires a < |LexRecovery(s).value.output.value|
    ensures var t := LexRecovery(s).value.output.value[a];
      t.span.start < |s| && ScanToken(s, t.span.start) == Scanned(t.token, t.span.end)
  {
    LexFromScans(s, 0, a);
  }

  /** Tiling spans lie in the input, in increasing order, without overlap. */
  lemma {:induction false} TilesOrdered(s: string, i: nat, tokens: seq<Spanned>)
    requires i <= |s|
    requires Tiles(s, i, tokens)
    ensures forall a :: 0 <= a < |tokens| ==>
      i <= tokens[a].span.start < tokens[a].span.end <= |s|
    ensures forall a, b :: 0 <= a < b < |tokens| ==> tokens[a].span.end <= tokens[b].span.start
    decreases |tokens|
  {
    if tokens != [] {
      TilesOrdered(s, tokens[0].span.end, tokens[1..]);
      assert forall a :: 1 <= a < |tokens| ==> tokens[a] == tokens[1..][a - 1];
    }
  }

  /** Every character outside the spans is whitespace. */
  lemma {:induction false} TilesGaps(s: string, i: nat, tokens: seq<Spanned>, p: nat)
    requires i <= p < |s|
    requires Tiles(s, i, tokens)
    requires forall a :: 0 <= a < |tokens| ==> !(tokens[a].span.start <= p < tokens[a].span.end)
    ensures IsWhitespace(s[p])
    decreases |tokens|
  {
    if tokens != [] {
      var sp := tokens[0].span;
      if sp.end <= p {
        assert forall a :: 0 <= a < |tokens[1..]| ==> tokens[1..][a] == tokens[a + 1];
        TilesGaps(s, sp.end, tokens[1..], p);
      } else {
        assert !(sp.start <= p < sp.end);
      }
    }
  }

  /** With recovery, the output holds every token and the errors come from the error tokens. */
  lemma LexRecoveryOutput(s: string)
    requires LexRecovery(s).Completed?
    ensures var r := LexRecovery(s).value;
      (r.output.None? <==> |s| > 0 && AllWhitespace(s, 0, |s|))
      && (r.output.None? ==> r.errors == [EndNotReached])
      && (r.output.Some? ==> Tiles(s, 0, r.output.value) && r.errors == EmittedAll(r.output.value))
  {
    if !(|s| > 0 && SkipWhitespace(s, 0) == |s|) {
      LexFromTiles(s, 0);
      if |s| > 0 {
        assert !IsWhitespace(s[SkipWhitespace(s, 0)]);
      }
    }
  }

  lemma {:induction false} EmittedAllEmpty(tokens: seq<Spanned>)
    ensures EmittedAll(tokens) == [] <==> forall a :: 0 <= a < |tokens| ==> !tokens[a].token.Error?
    decreases |tokens|
  {
    if tokens != [] {
      EmittedAllEmpty(tokens[1..]);
      assert forall a :: 1 <= a < |tokens| ==> tokens[a] == tokens[1..][a - 1];
    }
  }

  /**
   * A strict parse succeeds exactly when some token exists or the input is
   * empty, and no token is an error token; its tokens then tile the input.
   */
  lemma LexStrict(s: string)
    requires Lex(s).Completed?
    ensures Lex(s).value.Ok? <==>
      !(|s| > 0 && AllWhitespace(s, 0, |s|))
      && forall a :: 0 <= a < |LexRecovery(s).value.output.value| ==>
           !LexRecovery(s).value.output.value[a].token.Error?
    ensures Lex(s).value.Ok? ==> Tiles(s, 0, Lex(s).value.tokens)
  {
    LexRecoveryOutput(s);
    if LexRecovery(s).value.output.Some? {
      EmittedAllEmpty(LexRecovery(s).value.output.value);
    }
  }

  // ---------------------------------------------------------------------
  // Examples

  /** `"1 2 3"` lexes to three numbers at 0..1, 2..3 and 4..5. */
  lemma LexOneTwoThree(s: string)
    requires s == "1 2 3"
    ensures Lex(s) == Completed(Ok([
      Spanned(Number(1), Span(0, 1)),
      Spanned(Number(2), Span(2, 3)),
      Spanned(Number(3), Span(4, 5))]))
  {
    ScanOneTwoThree(s);
    assert LexFrom(s, 5) == Completed(Lexed([], []));
    assert SkipWhitespace(s, 3) == 4 != |s|;
    assert LexFrom(s, 3).value.tokens == [Spanned(Number(3), Span(4, 5))];
    assert LexFrom(s, 3).value.errors == [];
    assert SkipWhitespace(s, 1) == 2 != |s|;
    assert LexFrom(s, 1).value.tokens == [Spanned(Number(2), Span(2, 3)), Spanned(Number(3), Span(4, 5))];
    assert LexFrom(s, 1).value.errors == [];
    assert SkipWhitespace(s, 0) == 0 != |s|;
    assert LexFrom(s, 0).value.tokens == [
      Spanned(Number(1), Span(0, 1)), Spanned(Number(2), Span(2, 3)), Spanned(Number(3), Span(4, 5))];
    assert LexFrom(s, 0).value.errors == [];
  }

  /** The three tokens of `"1 2 3"`. */
  lemma ScanOneTwoThree(s: string)
    requires s == "1 2 3"
    ensures ScanToken(s, 0) == Scanned(Number(1), 1)
    ensures ScanToken(s, 2) == Scanned(Number(2), 3)
    ensures ScanToken(s, 4) == Scanned(Number(3), 5)
  {
    ScanDigit(s, 0);
    ScanDigit(s, 2);
    ScanDigit(s, 4);
  }

  /** A `0`, or a digit not followed by another digit, is a one-character number. */
  lemma ScanDigit(s: string, i: nat)
    requires i < |s| && IsDigit(s[i])
    requires s[i] == '0' || i + 1 == |s| || !IsDigit(s[i + 1])
    ensures ScanToken(s, i) == Scanned(Number(DigitValue(s[i]) as u32), i + 1)
  {
    if i + 4 <= |s| {
      assert s[i..i + 4][0] == s[i];
    }
    if s[i] != '0' {
      assert DigitRunEnd(s, i + 1) == i + 1;
    }
    assert s[i..i + 1][..0] == [];
    assert DigitsValue(s[i..i + 1]) == DigitValue(s[i]);
  }

  /** Leading zeros are separate numbers: `"007"` is `0`, `0`, `7`. */
  lemma LexLeadingZeros(s: string)
    requires s == "007"
    ensures Lex(s) == Completed(Ok([
      Spanned(Number(0), Span(0, 1)),
      Spanned(Number(0), Span(1, 2)),
      Spanned(Number(7), Span(2, 3))]))
  {
    ScanLeadingZeros(s);
    assert LexFrom(s, 3) == Completed(Lexed([], []));
    assert SkipWhitespace(s, 2) == 2 != |s|;
    assert LexFrom(s, 2).value.tokens == [Spanned(Number(7), Span(2, 3))];
    assert LexFrom(s, 2).value.errors == [];
    assert SkipWhitespace(s, 1) == 1 != |s|;
    assert LexFrom(s, 1).value.tokens == [Spanned(Number(0), Span(1, 2)), Spanned(Number(7), Span(2, 3))];
    assert LexFrom(s, 1).value.errors == [];
    assert SkipWhitespace(s, 0) == 0 != |s|;
    assert LexFrom(s, 0).value.tokens == [
      Spanned(Number(0), Span(0, 1)), Spanned(Number(0), Span(1, 2)), Spanned(Number(7), Span(2, 3))];
    assert LexFrom(s, 0).value.errors == [];
  }

  /** The three tokens of `"007"`. */
  lemma ScanLeadingZeros(s: string)
    requires s == "007"
    ensures ScanToken(s, 0) == Scanned(Number(0), 1)
    ensures ScanToken(s, 1) == Scanned(Number(0), 2)
    ensures ScanToken(s, 2) == Scanned(Number(7), 3)
  {
    ScanDigit(s, 0);
    ScanDigit(s, 1);
    ScanDigit(s, 2);
  }

  /** Input made only of whitespace is rejected. */
  lemma LexOnlyWhitespace()
    ensures Lex("  ") == Completed(Err([EndNotReached]))
  {
    assert SkipWhitespace("  ", 0) == 2;
  }
}
