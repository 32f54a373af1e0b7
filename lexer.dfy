/**
 * The tokenizer of src/lexer.rs: a longest-match scanner over the input
 * characters that turns every unrecognised character into an Error token and
 * reports, with every token, the span of input it covers.
 */
module Lexer {
  import opened Wrappers

  /**
   * Tokens. Error, Space, Number and Let ... Ident are the tokens of
   * src/lexer.rs; Int, Float and Underscore are the tokens the newer parser
   * (src/parser/mod.rs) also accepts, produced by a lexer that is not part of
   * this model, so Lex never returns them.
   */
  datatype Token =
    | Error
    | Space
    | Number(value: real)
    | Int(intValue: int)
    | Float(floatValue: real)
    | Let
    | Equal
    | Plus
    | Minus
    | Asterisk
    | Slash
    | Percent
    | Caret
    | Exclamation
    | LParen
    | RParen
    | Comma
    | Underscore
    | Ident(name: string)

  /** The half-open range of character positions a token covers. */
  datatype Span = Span(start: nat, end: nat)

  type Spanned = (Token, Span)

  // ---------------------------------------------------------------------
  // Character classes

  /** `\s`: the characters with the Unicode White_Space property. */
  predicate IsWhiteSpace(c: char) {
    ('\t' <= c <= '\r') || c == ' ' || c == '\U{0085}' || c == '\U{00A0}' || c == '\U{1680}'
    || ('\U{2000}' <= c <= '\U{200A}') || c == '\U{2028}' || c == '\U{2029}' || c == '\U{202F}'
    || c == '\U{205F}' || c == '\U{3000}'
  }

  predicate IsDigit(c: char) {
    '0' <= c <= '9'
  }

  /** `[[:alpha:]]`: an ASCII letter. */
  predicate IsAlpha(c: char) {
    ('a' <= c <= 'z') || ('A' <= c <= 'Z')
  }

  /** `[[:alnum:]]`: an ASCII letter or digit. */
  predicate IsAlnum(c: char) {
    IsAlpha(c) || IsDigit(c)
  }

  datatype CharClass = WhiteSpaceClass | DigitClass | AlnumClass

  predicate InClass(c: char, k: CharClass) {
    match k
    case WhiteSpaceClass => IsWhiteSpace(c)
    case DigitClass => IsDigit(c)
    case AlnumClass => IsAlnum(c)
  }

  /** The single-character tokens and the character each one is written with. */
  function SymbolToken(c: char): (r: Option<Token>)
    ensures r.Some? ==> IsSymbolToken(r.value) && SymbolText(r.value) == [c]
  {
    match c
    case '=' => Some(Equal)
    case '+' => Some(Plus)
    case '-' => Some(Minus)
    case '*' => Some(Asterisk)
    case '/' => Some(Slash)
    case '%' => Some(Percent)
    case '^' => Some(Caret)
    case '!' => Some(Exclamation)
    case '(' => Some(LParen)
    case ')' => Some(RParen)
    case ',' => Some(Comma)
    case _ => None
  }

  predicate IsSymbolToken(t: Token) {
    t.Equal? || t.Plus? || t.Minus? || t.Asterisk? || t.Slash? || t.Percent? || t.Caret?
    || t.Exclamation? || t.LParen? || t.RParen? || t.Comma?
  }

  function SymbolText(t: Token): string
    requires IsSymbolToken(t)
  {
    match t
    case Equal => "="
    case Plus => "+"
    case Minus => "-"
    case Asterisk => "*"
    case Slash => "/"
    case Percent => "%"
    case Caret => "^"
    case Exclamation => "!"
    case LParen => "("
    case RParen => ")"
    case Comma => ","
  }

  /** A character with which some token rule can begin. */
  predicate StartsToken(c: char) {
    IsWhiteSpace(c) || IsDigit(c) || IsAlpha(c) || SymbolToken(c).Some?
  }

  // ---------------------------------------------------------------------
  // The number rule `(0|[1-9]\d*)(\.\d+)?([eE][+-]?\d+)?`, declaratively

  /** w[i..j] are all digits. */
  predicate DigitsBetween(w: string, i: nat, j: nat)
    requires i <= j <= |w|
  {
    forall k :: i <= k < j ==> IsDigit(w[k])
  }

  /** w[i..j] is an integer part `0|[1-9]\d*`. */
  predicate IntegerPartAt(w: string, i: nat, j: nat)
    requires i <= j <= |w|
  {
    (j == i + 1 && w[i] == '0') || (i < j && '1' <= w[i] <= '9' && DigitsBetween(w, i, j))
  }

  /** w[i..j] is a fraction `\.\d+`, or empty. */
  predicate FractionAt(w: string, i: nat, j: nat)
    requires i <= j <= |w|
  {
    i == j || (i + 2 <= j && w[i] == '.' && DigitsBetween(w, i + 1, j))
  }

  /** w[i..j] is an exponent `[eE][+-]?\d+`, or empty. */
  predicate ExponentAt(w: string, i: nat, j: nat)
    requires i <= j <= |w|
  {
    i == j
    || (i + 2 <= j && (w[i] == 'e' || w[i] == 'E')
        && (DigitsBetween(w, i + 1, j)
            || (i + 3 <= j && (w[i + 1] == '+' || w[i + 1] == '-') && DigitsBetween(w, i + 2, j))))
  }

  /** s[i..a], s[a..b] and s[b..j] are an integer part, a fraction and an exponent. */
  predicate NumberSplitAt(s: string, i: nat, a: nat, b: nat, j: nat) {
    i <= a <= b <= j <= |s| && IntegerPartAt(s, i, a) && FractionAt(s, a, b) && ExponentAt(s, b, j)
  }

  /** s[i..j] is a whole match of the number rule. */
  predicate IsNumberAt(s: string, i: nat, j: nat) {
    exists a: nat, b: nat {:trigger NumberSplitAt(s, i, a, b, j)} :: i <= a <= b <= j && NumberSplitAt(s, i, a, b, j)
  }

  /** w is a whole match of the number rule. */
  predicate IsNumberLexeme(w: string) {
    IsNumberAt(w, 0, |w|)
  }

  // ---------------------------------------------------------------------
  // Scanning

  /** The number of characters of class k starting at position i. */
  function RunLength(s: string, i: nat, k: CharClass): (n: nat)
    requires i <= |s|
    ensures i + n <= |s|
    ensures forall j :: i <= j < i + n ==> InClass(s[j], k)
    ensures i + n == |s| || !InClass(s[i + n], k)
    decreases |s| - i
  {
    if i < |s| && InClass(s[i], k) then 1 + RunLength(s, i + 1, k) else 0
  }

  /** End of the integer part `0|[1-9]\d*` that starts at i. */
  function IntegerPartEnd(s: string, i: nat): (e: nat)
    requires i < |s| && IsDigit(s[i])
    ensures i < e <= |s|
    ensures IntegerPartAt(s, i, e)
  {
    if s[i] == '0' then i + 1 else i + 1 + RunLength(s, i + 1, DigitClass)
  }

  /** End of the optional fraction `\.\d+` at a (a itself when there is none). */
  function FractionEnd(s: string, a: nat): (e: nat)
    requires a <= |s|
    ensures a <= e <= |s|
    ensures FractionAt(s, a, e)
  {
    if a + 1 < |s| && s[a] == '.' && IsDigit(s[a + 1]) then a + 2 + RunLength(s, a + 2, DigitClass) else a
  }

  /** End of the optional exponent `[eE][+-]?\d+` at b (b itself when there is none). */
  function ExponentEnd(s: string, b: nat): (e: nat)
    requires b <= |s|
    ensures b <= e <= |s|
    ensures ExponentAt(s, b, e)
  {
    if b < |s| && (s[b] == 'e' || s[b] == 'E') then
      var m := if b + 1 < |s| && (s[b + 1] == '+' || s[b + 1] == '-') then b + 2 else b + 1;
      if m < |s| && IsDigit(s[m]) then m + 1 + RunLength(s, m + 1, DigitClass) else b
    else b
  }

  /** End of the number lexeme that starts at i: the longest match of the number rule there. */
  function NumberEnd(s: string, i: nat): (j: nat)
    requires i < |s| && IsDigit(s[i])
    ensures i < j <= |s|
    ensures NumberSplitAt(s, i, IntegerPartEnd(s, i), FractionEnd(s, IntegerPartEnd(s, i)), j)
    ensures IsNumberAt(s, i, j)
  {
    var a := IntegerPartEnd(s, i);
    var j := ExponentEnd(s, FractionEnd(s, a));
    assert NumberSplitAt(s, i, a, FractionEnd(s, a), j);
    j
  }

  /** The value of a decimal digit (0 for any other character). */
  function DigitOf(c: char): (d: nat)
    ensures d <= 9
    ensures IsDigit(c) ==> d as int == c as int - '0' as int
  {
    var d := c as int - '0' as int;
    if 0 <= d <= 9 then d else 0
  }

  /** The decimal value of the digits w[i..j]. */
  function DigitsValue(w: string, i: nat, j: nat): nat
    requires i <= j <= |w|
    decreases j - i
  {
    if i == j then 0 else DigitsValue(w, i, j - 1) * 10 + DigitOf(w[j - 1])
  }

  function Pow10(n: nat): (p: nat)
    ensures p >= 1
  {
    if n == 0 then 1 else 10 * Pow10(n - 1)
  }

  /**
   * whole.fraction, where the fraction has fracDigits digits, times 10 to the exponent, or divided
   * by it when the exponent is negative.
   */
  function ScaledDecimal(whole: nat, fraction: nat, fracDigits: nat, negative: bool, exponent: nat): real {
    var mantissa := (whole * Pow10(fracDigits) + fraction) as real / Pow10(fracDigits) as real;
    var scale := Pow10(exponent) as real;
    if negative then mantissa / scale else mantissa * scale
  }

  /**
   * The exact value of the number lexeme s[i..j], read from its integer part s[i..a], its fraction
   * s[a..b] (a point and digits, or nothing) and its exponent s[b..j] (`e` or `E`, an optional sign
   * and digits, or nothing).
   */
  function ValueAt(s: string, i: nat, a: nat, b: nat, j: nat): real
    requires i <= a <= b <= j <= |s|
  {
    var signed := b + 1 < j && (s[b + 1] == '+' || s[b + 1] == '-');
    ScaledDecimal(DigitsValue(s, i, a),
                  if a < b then DigitsValue(s, a + 1, b) else 0,
                  if a < b then b - a - 1 else 0,
                  signed && s[b + 1] == '-',
                  if b == j then 0 else DigitsValue(s, if signed then b + 2 else b + 1, j))
  }

  /** v is the value of s[i..j] split into the three parts of the number rule. */
  predicate ReadsAsNumberAt(s: string, i: nat, j: nat, v: real) {
    exists a: nat, b: nat {:trigger NumberSplitAt(s, i, a, b, j)} ::
      i <= a <= b <= j && NumberSplitAt(s, i, a, b, j) && v == ValueAt(s, i, a, b, j)
  }

  /** `lex.slice().parse::<f64>()`, exactly: the value of the lexeme at i, read at the split its
      parts' ends give. */
  function NumberValue(s: string, i: nat): real
    requires i < |s| && IsDigit(s[i])
  {
    var a := IntegerPartEnd(s, i);
    ValueAt(s, i, a, FractionEnd(s, a), NumberEnd(s, i))
  }

  /** The value a number token gets is the value its lexeme reads as. */
  lemma NumberReads(s: string, i: nat)
    requires i < |s| && IsDigit(s[i])
    ensures ReadsAsNumberAt(s, i, NumberEnd(s, i), NumberValue(s, i))
  {
    var a := IntegerPartEnd(s, i);
    assert NumberSplitAt(s, i, a, FractionEnd(s, a), NumberEnd(s, i));
  }

  /** The token that begins at position i and its length. */
  function Scan(s: string, i: nat): (r: (Token, nat))
    requires i < |s|
    ensures 1 <= r.1 <= |s| - i
  {
    var c := s[i];
    if IsWhiteSpace(c) then
      (Space, 1 + RunLength(s, i + 1, WhiteSpaceClass))
    else if IsDigit(c) then
      (Number(NumberValue(s, i)), NumberEnd(s, i) - i)
    else if IsAlpha(c) then
      var n := 1 + RunLength(s, i + 1, AlnumClass);
      if s[i..i + n] == "let" then (Let, n) else (Ident(s[i..i + n]), n)
    else
      match SymbolToken(c)
      case Some(t) => (t, 1)
      case None => (Error, 1)
  }

  function LexFrom(s: string, i: nat): seq<Spanned>
    requires i <= |s|
    decreases |s| - i
  {
    if i == |s| then []
    else
      var (t, n) := Scan(s, i);
      [(t, Span(i, i + n))] + LexFrom(s, i + n)
  }

  /** `lex`: the tokens of s with their spans. */
  function Lex(s: string): seq<Spanned> {
    LexFrom(s, 0)
  }

  // ---------------------------------------------------------------------
  // What a token says about the text it covers

  predicate IsIdentWord(w: string) {
    |w| >= 1 && IsAlpha(w[0]) && forall j :: 0 <= j < |w| ==> IsAlnum(w[j])
  }

  /** Token t, covering span sp of s, is what the rules of src/lexer.rs produce there. */
  predicate Matches(s: string, t: Token, sp: Span) {
    sp.start < sp.end <= |s|
    && var w := s[sp.start..sp.end];
    match t
    case Space =>
      (forall j :: sp.start <= j < sp.end ==> IsWhiteSpace(s[j]))
      && (sp.end == |s| || !IsWhiteSpace(s[sp.end]))
    case Number(v) => IsNumberAt(s, sp.start, sp.end) && ReadsAsNumberAt(s, sp.start, sp.end, v)
    case Let => w == "let" && (sp.end == |s| || !IsAlnum(s[sp.end]))
    case Ident(x) => x == w && IsIdentWord(w) && w != "let" && (sp.end == |s| || !IsAlnum(s[sp.end]))
    case Error => sp.end == sp.start + 1 && !StartsToken(s[sp.start])
    case Int(_) => false
    case Float(_) => false
    case Underscore => false
    case _ => sp.end == sp.start + 1 && SymbolToken(s[sp.start]) == Some(t)
  }

  /** The spans of ts cover lo..hi exactly, in order, without gaps or overlaps. */
  predicate Tiles(ts: seq<Spanned>, lo: nat, hi: nat) {
    (ts == [] <==> lo == hi)
    && (ts != [] ==> ts[0].1.start == lo && ts[|ts| - 1].1.end == hi)
    && (forall k :: 0 <= k < |ts| ==> ts[k].1.start < ts[k].1.end)
    && (forall k :: 0 <= k < |ts| - 1 ==> ts[k].1.end == ts[k + 1].1.start)
  }

  lemma SpaceMatches(s: string, i: nat)
    requires i < |s| && IsWhiteSpace(s[i])
    ensures Matches(s, Space, Span(i, i + 1 + RunLength(s, i + 1, WhiteSpaceClass)))
  {
    var n := 1 + RunLength(s, i + 1, WhiteSpaceClass);
    assert forall j :: i + 1 <= j < i + n ==> InClass(s[j], WhiteSpaceClass);
    assert i + n == |s| || !InClass(s[i + n], WhiteSpaceClass);
  }

  lemma AlnumSlice(s: string, lo: nat, hi: nat)
    requires lo <= hi <= |s|
    requires forall j :: lo <= j < hi ==> IsAlnum(s[j])
    ensures forall j :: 0 <= j < hi - lo ==> IsAlnum(s[lo..hi][j])
  {
  }

  lemma WordMatches(s: string, i: nat)
    requires i < |s| && IsAlpha(s[i])
    ensures Matches(s, Scan(s, i).0, Span(i, i + Scan(s, i).1))
  {
    var n := 1 + RunLength(s, i + 1, AlnumClass);
    var w := s[i..i + n];
    forall j | i <= j < i + n ensures IsAlnum(s[j]) {
      if j > i { assert InClass(s[j], AlnumClass); }
    }
    AlnumSlice(s, i, i + n);
    assert IsIdentWord(w);
    assert i + n == |s| || !IsAlnum(s[i + n]) by {
      assert i + n == |s| || !InClass(s[i + n], AlnumClass);
    }
    if w == "let" {
      assert Scan(s, i) == (Let, n);
      assert Matches(s, Let, Span(i, i + n));
    } else {
      assert Scan(s, i) == (Ident(w), n);
      assert Matches(s, Ident(w), Span(i, i + n));
    }
  }

  lemma ScanMatches(s: string, i: nat)
    requires i < |s|
    ensures Matches(s, Scan(s, i).0, Span(i, i + Scan(s, i).1))
  {
    var c := s[i];
    if IsWhiteSpace(c) {
      SpaceMatches(s, i);
    } else if IsDigit(c) {
      NumberMatches(s, i);
    } else if IsAlpha(c) {
      WordMatches(s, i);
    } else {
      SymbolMatches(s, i);
    }
  }

  lemma NumberMatches(s: string, i: nat)
    requires i < |s| && !IsWhiteSpace(s[i]) && IsDigit(s[i])
    ensures Matches(s, Scan(s, i).0, Span(i, i + Scan(s, i).1))
  {
    NumberReads(s, i);
    assert Scan(s, i) == (Number(NumberValue(s, i)), NumberEnd(s, i) - i);
  }

  lemma SymbolMatches(s: string, i: nat)
    requires i < |s| && !IsWhiteSpace(s[i]) && !IsDigit(s[i]) && !IsAlpha(s[i])
    ensures Matches(s, Scan(s, i).0, Span(i, i + Scan(s, i).1))
  {
    match SymbolToken(s[i])
    case Some(t) =>
      assert Scan(s, i) == (t, 1);
      assert IsSymbolToken(t);
    case None =>
      assert Scan(s, i) == (Error, 1);
  }

  lemma TilesCons(t: Token, lo: nat, mid: nat, rest: seq<Spanned>, hi: nat)
    requires lo < mid <= hi
    requires Tiles(rest, mid, hi)
    ensures Tiles([(t, Span(lo, mid))] + rest, lo, hi)
  {
    var ts := [(t, Span(lo, mid))] + rest;
    forall k | 0 <= k < |ts| ensures ts[k].1.start < ts[k].1.end {
      if k > 0 { assert ts[k] == rest[k - 1]; }
    }
    forall k | 0 <= k < |ts| - 1 ensures ts[k].1.end == ts[k + 1].1.start {
      if k > 0 { assert ts[k] == rest[k - 1] && ts[k + 1] == rest[k]; }
    }
  }

  lemma {:induction false} LexFromTiles(s: string, i: nat)
    requires i <= |s|
    ensures Tiles(LexFrom(s, i), i, |s|)
    decreases |s| - i
  {
    if i < |s| {
      LexFromTiles(s, i + Scan(s, i).1);
      TilesCons(Scan(s, i).0, i, i + Scan(s, i).1, LexFrom(s, i + Scan(s, i).1), |s|);
      assert LexFrom(s, i) == [(Scan(s, i).0, Span(i, i + Scan(s, i).1))] + LexFrom(s, i + Scan(s, i).1);
    }
  }

  /** Every token of ts is what its rule makes of the text under its span. */
  predicate AllMatch(s: string, ts: seq<Spanned>) {
    forall k :: 0 <= k < |ts| ==> Matches(s, ts[k].0, ts[k].1)
  }

  lemma {:induction false} LexFromMatches(s: string, i: nat)
    requires i <= |s|
    ensures AllMatch(s, LexFrom(s, i))
    decreases |s| - i
  {
    if i < |s| {
      LexFromMatches(s, i + Scan(s, i).1);
      ScanMatches(s, i);
      MatchesCons(s, Scan(s, i).0, Span(i, i + Scan(s, i).1), LexFrom(s, i + Scan(s, i).1));
      assert LexFrom(s, i) == [(Scan(s, i).0, Span(i, i + Scan(s, i).1))] + LexFrom(s, i + Scan(s, i).1);
    }
  }

  lemma MatchesCons(s: string, t: Token, sp: Span, rest: seq<Spanned>)
    requires Matches(s, t, sp)
    requires AllMatch(s, rest)
    ensures AllMatch(s, [(t, sp)] + rest)
  {
    var ts := [(t, sp)] + rest;
    forall k | 0 <= k < |ts| ensures Matches(s, ts[k].0, ts[k].1) {
      if k > 0 { assert ts[k] == rest[k - 1]; }
    }
  }

  /** The spans of `lex`'s tokens cover the whole input in order, and every
      token is the one its rule makes of the text under its span. */
  lemma LexCoversInput(s: string)
    ensures Tiles(Lex(s), 0, |s|)
    ensures forall k :: 0 <= k < |Lex(s)| ==> Matches(s, Lex(s)[k].0, Lex(s)[k].1)
  {
    LexFromTiles(s, 0);
    LexFromMatches(s, 0);
  }

  /** A run of white space is one Space token, so two Space tokens are never adjacent. */
  lemma NoAdjacentSpaces(s: string)
    ensures forall k :: 0 <= k < |Lex(s)| - 1 ==> !(Lex(s)[k].0.Space? && Lex(s)[k + 1].0.Space?)
  {
    var ts := Lex(s);
    LexCoversInput(s);
    forall k | 0 <= k < |ts| - 1
      ensures !(ts[k].0.Space? && ts[k + 1].0.Space?)
    {
      assert Matches(s, ts[k].0, ts[k].1);
      assert Matches(s, ts[k + 1].0, ts[k + 1].1);
      assert ts[k].1.end == ts[k + 1].1.start;
    }
  }

  /** An identifier token is never the keyword. */
  lemma IdentIsNeverLet(s: string)
    ensures forall k :: 0 <= k < |Lex(s)| && Lex(s)[k].0.Ident? ==> Lex(s)[k].0.name != "let"
  {
    LexCoversInput(s);
    forall k | 0 <= k < |Lex(s)| && Lex(s)[k].0.Ident?
      ensures Lex(s)[k].0.name != "let"
    {
      assert Matches(s, Lex(s)[k].0, Lex(s)[k].1);
    }
  }

  // ---------------------------------------------------------------------
  // A number lexeme has one reading

  /** What a split of s[i..j] says about single characters: digits up to a, then a point and
      digits up to b, then `e` or `E`. */
  lemma SplitCharacters(s: string, i: nat, a: nat, b: nat, j: nat)
    requires NumberSplitAt(s, i, a, b, j)
    ensures forall k :: i <= k < a ==> IsDigit(s[k])
    ensures a < b ==> s[a] == '.' && forall k :: a < k < b ==> IsDigit(s[k])
    ensures b < j ==> s[b] == 'e' || s[b] == 'E'
  {
  }

  /** A second split cannot end the integer part or the fraction later. */
  lemma SplitNotLater(s: string, i: nat, j: nat, a: nat, b: nat, a': nat, b': nat)
    requires NumberSplitAt(s, i, a, b, j) && NumberSplitAt(s, i, a', b', j)
    requires a <= a' && (a == a' ==> b <= b')
    ensures a == a' && b == b'
  {
    SplitCharacters(s, i, a, b, j);
    SplitCharacters(s, i, a', b', j);
  }

  /** The number rule splits a lexeme in only one way. */
  lemma NumberSplitUnique(s: string, i: nat, j: nat, a: nat, b: nat, a': nat, b': nat)
    requires NumberSplitAt(s, i, a, b, j) && NumberSplitAt(s, i, a', b', j)
    ensures a == a' && b == b'
  {
    if a < a' || (a == a' && b <= b') {
      SplitNotLater(s, i, j, a, b, a', b');
    } else {
      SplitNotLater(s, i, j, a', b', a, b);
    }
  }

  /** A lexeme reads as at most one value. */
  lemma NumberReadingUnique(s: string, i: nat, j: nat, v: real, v': real)
    requires ReadsAsNumberAt(s, i, j, v) && ReadsAsNumberAt(s, i, j, v')
    ensures v == v'
  {
    var a: nat, b: nat :| i <= a <= b <= j && NumberSplitAt(s, i, a, b, j) && v == ValueAt(s, i, a, b, j);
    var a': nat, b': nat :| i <= a' <= b' <= j && NumberSplitAt(s, i, a', b', j) && v' == ValueAt(s, i, a', b', j);
    NumberSplitUnique(s, i, j, a, b, a', b');
  }

  /** Every number token carries the one value the text under its span reads as. */
  lemma NumberTokensCarryTheirValue(s: string)
    ensures forall k :: 0 <= k < |Lex(s)| && Lex(s)[k].0.Number? ==>
      var sp := Lex(s)[k].1;
      && ReadsAsNumberAt(s, sp.start, sp.end, Lex(s)[k].0.value)
      && forall v :: ReadsAsNumberAt(s, sp.start, sp.end, v) ==> v == Lex(s)[k].0.value
  {
    LexCoversInput(s);
    forall k | 0 <= k < |Lex(s)| && Lex(s)[k].0.Number?
      ensures var sp := Lex(s)[k].1;
        && ReadsAsNumberAt(s, sp.start, sp.end, Lex(s)[k].0.value)
        && forall v :: ReadsAsNumberAt(s, sp.start, sp.end, v) ==> v == Lex(s)[k].0.value
    {
      var sp := Lex(s)[k].1;
      assert Matches(s, Lex(s)[k].0, sp);
      forall v | ReadsAsNumberAt(s, sp.start, sp.end, v) ensures v == Lex(s)[k].0.value {
        NumberReadingUnique(s, sp.start, sp.end, v, Lex(s)[k].0.value);
      }
    }
  }

  // ---------------------------------------------------------------------
  // Printing tokens back

  /** `Display for Token`; numbers are printed by `num`, the float formatter. */
  function TokenText(t: Token, num: real -> string): string {
    match t
    case Error => "unknown symbol"
    case Space => " "
    case Number(v) => num(v)
    case Int(v) => num(v as real)
    case Float(v) => num(v)
    case Ident(x) => x
    case Let => "let"
    case Underscore => "_"
    case _ => SymbolText(t)
  }

  lemma AlnumRunToEnd(w: string, i: nat)
    requires i <= |w|
    requires forall j :: i <= j < |w| ==> IsAlnum(w[j])
    ensures RunLength(w, i, AlnumClass) == |w| - i
    decreases |w| - i
  {
    if i < |w| {
      assert InClass(w[i], AlnumClass);
      AlnumRunToEnd(w, i + 1);
    }
  }

  /** Printing a symbol, the keyword or an identifier and lexing the text again
      gives back exactly that token, covering the whole text. */
  lemma TokenTextLexesBack(t: Token, num: real -> string)
    requires IsSymbolToken(t) || t.Let? || (t.Ident? && IsIdentWord(t.name) && t.name != "let")
    ensures Lex(TokenText(t, num)) == [(t, Span(0, |TokenText(t, num)|))]
  {
    var w := TokenText(t, num);
    if t.Ident? {
      AlnumRunToEnd(w, 1);
      assert IsAlpha(w[0]);
      assert w[0..|w|] == w;
      assert Scan(w, 0) == (t, |w|);
      assert LexFrom(w, |w|) == [];
    } else if t.Let? {
      AlnumRunToEnd(w, 1);
      assert w[0..3] == "let";
      assert Scan(w, 0) == (Let, 3);
      assert LexFrom(w, 3) == [];
    } else {
      assert Scan(w, 0) == (t, 1);
      assert LexFrom(w, 1) == [];
    }
  }

  /** The text of a single-character token lexes back to that token alone. */
  lemma SymbolLexesBack(t: Token)
    requires IsSymbolToken(t)
    ensures |SymbolText(t)| == 1 && Lex(SymbolText(t)) == [(t, Span(0, 1))]
  {
    TokenTextLexesBack(t, _ => "");
  }

  // ---------------------------------------------------------------------
  // Numbers take the exact value of their text

  /** "1.5e2" is one number token worth 150. */
  lemma ExponentNumberValue()
    ensures Lex("1.5e2") == [(Number(150.0), Span(0, 5))]
  {
    var s := "1.5e2";
    assert RunLength(s, 1, DigitClass) == 0;
    assert RunLength(s, 3, DigitClass) == 0;
    assert RunLength(s, 5, DigitClass) == 0;
    assert IntegerPartEnd(s, 0) == 1 && FractionEnd(s, 1) == 3 && ExponentEnd(s, 3) == 5;
    assert DigitsValue(s, 0, 1) == 1 && DigitsValue(s, 2, 3) == 5 && DigitsValue(s, 4, 5) == 2;
    assert Pow10(1) == 10 && Pow10(2) == 100;
    assert Scan(s, 0) == (Number(150.0), 5);
    assert LexFrom(s, 5) == [];
  }

  /** "2.5e-1" is one number token worth a quarter: a negative exponent divides. */
  lemma NegativeExponentNumberValue()
    ensures Lex("2.5e-1") == [(Number(0.25), Span(0, 6))]
  {
    var s := "2.5e-1";
    assert RunLength(s, 1, DigitClass) == 0;
    assert RunLength(s, 3, DigitClass) == 0;
    assert RunLength(s, 6, DigitClass) == 0;
    assert IntegerPartEnd(s, 0) == 1 && FractionEnd(s, 1) == 3 && ExponentEnd(s, 3) == 6;
    assert DigitsValue(s, 0, 1) == 2 && DigitsValue(s, 2, 3) == 5 && DigitsValue(s, 5, 6) == 1;
    assert Pow10(1) == 10;
    assert Scan(s, 0) == (Number(0.25), 6);
    assert LexFrom(s, 6) == [];
  }

  // ---------------------------------------------------------------------
  // Inputs that do not form one number

  lemma ZeroDotNumber()
    ensures Scan("0.", 0) == (Number(0.0), 1)
  {
    assert IntegerPartEnd("0.", 0) == 1;
    assert FractionEnd("0.", 1) == 1;
    assert ExponentEnd("0.", 1) == 1;
    assert DigitsValue("0.", 0, 1) == 0;
    assert Pow10(0) == 1;
  }

  lemma ZeroDotSymbol()
    ensures Scan("0.", 1) == (Error, 1)
  {
    assert "0."[1] == '.';
  }

  /** "0." is the number 0 followed by an unknown symbol. */
  lemma ZeroDotIsTwoTokens()
    ensures Lex("0.") == [(Number(0.0), Span(0, 1)), (Error, Span(1, 2))]
  {
    ZeroDotNumber();
    ZeroDotSymbol();
    assert LexFrom("0.", 1) == [(Error, Span(1, 2))] + LexFrom("0.", 2);
    assert LexFrom("0.", 2) == [];
  }

  lemma DanglingExponentParts()
    ensures IntegerPartEnd("1e", 0) == 1 && FractionEnd("1e", 1) == 1 && ExponentEnd("1e", 1) == 1
  {
    assert RunLength("1e", 1, DigitClass) == 0;
  }

  lemma DanglingExponentNumber()
    ensures NumberEnd("1e", 0) == 1 && NumberValue("1e", 0) == 1.0
  {
    DanglingExponentParts();
    assert DigitsValue("1e", 0, 1) == 1;
    assert Pow10(0) == 1;
  }

  lemma DanglingExponentWord()
    ensures Scan("1e", 1) == (Ident("e"), 1)
  {
    var w := "1e";
    assert w[1..2] == "e";
    assert RunLength(w, 2, AlnumClass) == 0;
  }

  /** "1e" is the number 1 followed by the identifier e. */
  lemma DanglingExponentIsIdent()
    ensures Lex("1e") == [(Number(1.0), Span(0, 1)), (Ident("e"), Span(1, 2))]
  {
    DanglingExponentNumber();
    DanglingExponentWord();
    assert Scan("1e", 0) == (Number(1.0), 1);
    assert LexFrom("1e", 1) == [(Ident("e"), Span(1, 2))] + LexFrom("1e", 2);
    assert LexFrom("1e", 2) == [];
  }

  /** "0." is not a number lexeme: a fraction needs a digit after the point. */
  lemma ZeroDotIsNotNumber()
    ensures !IsNumberLexeme("0.")
  {
    var w := "0.";
    forall a: nat, b: nat | a <= b <= |w| && IntegerPartAt(w, 0, a) && FractionAt(w, a, b)
      ensures !ExponentAt(w, b, |w|)
    {
      assert a == 1;
    }
  }

  /** "1..2" is not a number lexeme. */
  lemma DoubleDotIsNotNumber()
    ensures !IsNumberLexeme("1..2")
  {
    var w := "1..2";
    forall a: nat, b: nat | a <= b <= |w| && IntegerPartAt(w, 0, a) && FractionAt(w, a, b)
      ensures !ExponentAt(w, b, |w|)
    {
      assert !IsDigit(w[1]);
      assert a == 1;
      assert !IsDigit(w[2]);
      assert b == 1;
    }
  }

  /** "1e" is not a number lexeme: an exponent needs a digit. */
  lemma BareExponentIsNotNumber()
    ensures !IsNumberLexeme("1e")
  {
    var w := "1e";
    forall a: nat, b: nat | a <= b <= |w| && IntegerPartAt(w, 0, a) && FractionAt(w, a, b)
      ensures !ExponentAt(w, b, |w|)
    {
      assert !IsDigit(w[1]);
      assert a == 1;
      assert b == 1;
    }
  }
}
