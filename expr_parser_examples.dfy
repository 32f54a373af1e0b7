/**
 * Inputs from the unit tests of src/parser.rs, written as the token
 * sequences src/lexer.rs produces for them, with the trees the parser builds
 * or its refusal.
 */
module ExprParserExamples {
  import opened Wrappers
  import opened Operators
  import opened Ast
  import L = Lexer
  import opened ExprParser

  /** The tokens of "2 + 3 * 4". */
  function SumOfProduct(): seq<L.Token> {
    [L.Number(2.0), L.Space, L.Plus, L.Space, L.Number(3.0), L.Space, L.Asterisk, L.Space, L.Number(4.0)]
  }

  lemma SumOfProductLeft()
    ensures Product(SumOfProduct(), 0) == Some(Parsed(Number(2.0), 2))
  {
    var ts := SumOfProduct();
    assert Power(ts, 0) == Some(Parsed(Number(2.0), 2));
    assert Power(ts, 2) == None;
  }

  lemma SumOfProductRight()
    ensures Product(SumOfProduct(), 3) == Some(Parsed(Infix(Mul, Number(3.0), Number(4.0)), 9))
  {
    var ts := SumOfProduct();
    assert Power(ts, 3) == Some(Parsed(Number(3.0), 6));
    assert Power(ts, 6) == None;
    assert Power(ts, 7) == Some(Parsed(Number(4.0), 9));
  }

  /** "2 + 3 * 4": multiplication binds tighter than addition. */
  lemma ProductBindsTighter()
    ensures Parse(SumOfProduct()) == Some(Infix(Add, Number(2.0), Infix(Mul, Number(3.0), Number(4.0))))
  {
    SumOfProductLeft();
    SumOfProductRight();
  }

  /** "-3!": the sign belongs to the literal, so the factorial applies to -3. */
  lemma SignedLiteralFactorial()
    ensures Parse([L.Minus, L.Number(3.0), L.Exclamation]) == Some(Postfix(Fac, Number(-3.0)))
  {
  }

  /** "5!!": at most one factorial after an atom. */
  lemma DoubleFactorialFails()
    ensures Parse([L.Number(5.0), L.Exclamation, L.Exclamation]) == None
  {
  }

  /** "--1": the second minus sign belongs to the literal, the first negates it. */
  lemma DoubleMinus()
    ensures Parse([L.Minus, L.Minus, L.Number(1.0)]) == Some(Prefix(Neg, Number(-1.0)))
  {
  }

  /** "2 -3": a minus sign after a power is never the start of an implicit product. */
  lemma MinusIsSubtraction()
    ensures Parse([L.Number(2.0), L.Space, L.Minus, L.Number(3.0)]) == Some(Infix(Sub, Number(2.0), Number(3.0)))
  {
    var ts := [L.Number(2.0), L.Space, L.Minus, L.Number(3.0)];
    assert Product(ts, 0) == Some(Parsed(Number(2.0), 2));
  }

  /** The tokens of "2 (3)". */
  function ImplicitProduct(): seq<L.Token> {
    [L.Number(2.0), L.Space, L.LParen, L.Number(3.0), L.RParen]
  }

  lemma ImplicitProductGroup()
    ensures Power(ImplicitProduct(), 2) == Some(Parsed(Number(3.0), 5))
  {
    var ts := ImplicitProduct();
    assert Sum(ts, 3) == Some(Parsed(Number(3.0), 4));
    assert Atomic(ts, 2) == Some(Parsed(Number(3.0), 5));
  }

  lemma ImplicitProductPowers()
    ensures Powers(ImplicitProduct(), 0) == Some(Parsed(Infix(Mul, Number(2.0), Number(3.0)), 5))
  {
    var ts := ImplicitProduct();
    assert Power(ts, 0) == Some(Parsed(Number(2.0), 2));
    ImplicitProductGroup();
  }

  /** "2 (3)": powers written side by side multiply. */
  lemma JuxtapositionMultiplies()
    ensures Parse(ImplicitProduct()) == Some(Infix(Mul, Number(2.0), Number(3.0)))
  {
    ImplicitProductPowers();
  }

  /** "2^3^4": exponentiation groups to the right. */
  lemma PowerGroupsRight()
    ensures Parse([L.Number(2.0), L.Caret, L.Number(3.0), L.Caret, L.Number(4.0)])
         == Some(Infix(Pow, Number(2.0), Infix(Pow, Number(3.0), Number(4.0))))
  {
    var ts := [L.Number(2.0), L.Caret, L.Number(3.0), L.Caret, L.Number(4.0)];
    assert Power(ts, 2) == Some(Parsed(Infix(Pow, Number(3.0), Number(4.0)), 5));
  }

  /** "sin()": a call may have no arguments. */
  lemma EmptyCall()
    ensures Parse([L.Ident("sin"), L.LParen, L.RParen]) == Some(FnCall("sin", []))
  {
  }

  /** The tokens of "log(1, )". */
  function TrailingComma(): seq<L.Token> {
    [L.Ident("log"), L.LParen, L.Number(1.0), L.Comma, L.Space, L.RParen]
  }

  lemma TrailingCommaMissing()
    ensures Sum(TrailingComma(), 4) == None
  {
    var ts := TrailingComma();
    assert Prefixed(ts, 5) == None;
    assert Power(ts, 4) == None;
  }

  lemma TrailingCommaFirst()
    ensures Sum(TrailingComma(), 2) == Some(Parsed(Number(1.0), 3))
  {
    var ts := TrailingComma();
    assert Power(ts, 2) == Some(Parsed(Number(1.0), 3));
    assert Power(ts, 3) == None;
  }

  lemma TrailingCommaArguments()
    ensures Arguments(TrailingComma(), 2) == ([Number(1.0)], 3)
  {
    TrailingCommaMissing();
    TrailingCommaFirst();
  }

  /** "log(1, )": a separator must be followed by an argument. */
  lemma TrailingCommaFails()
    ensures Parse(TrailingComma()) == None
  {
    var ts := TrailingComma();
    TrailingCommaArguments();
    assert FunctionCall(ts, 0) == None;
    assert Atomic(ts, 0) == None;
    assert Prefixed(ts, 0) == None;
    assert Power(ts, 0) == None;
  }

  /** "2 ** 3": there is no `**` operator. */
  lemma DoubleStarFails()
    ensures Parse([L.Number(2.0), L.Space, L.Asterisk, L.Asterisk, L.Space, L.Number(3.0)]) == None
  {
    var ts := [L.Number(2.0), L.Space, L.Asterisk, L.Asterisk, L.Space, L.Number(3.0)];
    assert Powers(ts, 3) == None;
  }

  /** A name on its own is not an expression: identifiers only start calls. */
  lemma BareIdentifierFails(x: string)
    ensures Parse([L.Ident(x)]) == None
  {
    var ts := [L.Ident(x)];
    assert Atomic(ts, 0) == None;
    assert Prefixed(ts, 0) == None;
  }

  /** "5 !": the factorial sign must follow its atom directly. */
  lemma SpaceBeforeFactorialFails()
    ensures Parse([L.Number(5.0), L.Space, L.Exclamation]) == None
  {
    var ts := [L.Number(5.0), L.Space, L.Exclamation];
    assert Power(ts, 0) == Some(Parsed(Number(5.0), 2));
    assert Power(ts, 2) == None;
    assert Sum(ts, 0) == Some(Parsed(Number(5.0), 2));
  }

  /** "-2^3": the sign is part of the base literal. */
  lemma NegativeBase()
    ensures Parse([L.Minus, L.Number(2.0), L.Caret, L.Number(3.0)]) == Some(Infix(Pow, Number(-2.0), Number(3.0)))
  {
    var ts := [L.Minus, L.Number(2.0), L.Caret, L.Number(3.0)];
    assert Power(ts, 3) == Some(Parsed(Number(3.0), 4));
  }

  /** "2 ^ -3": the sign is part of the exponent literal. */
  lemma NegativeExponent()
    ensures Parse([L.Number(2.0), L.Space, L.Caret, L.Space, L.Minus, L.Number(3.0)]) == Some(Infix(Pow, Number(2.0), Number(-3.0)))
  {
    var ts := [L.Number(2.0), L.Space, L.Caret, L.Space, L.Minus, L.Number(3.0)];
    assert Term(ts, 0) == Some(Parsed(Number(2.0), 2));
    assert Power(ts, 3) == Some(Parsed(Number(-3.0), 6));
  }
}
