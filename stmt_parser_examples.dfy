/**
 * Inputs from src/parser/test.rs, written as the white-space-free token
 * sequences the statement parser reads, with the statements it builds or its
 * refusal.
 */
module StmtParserExamples {
  import opened Wrappers
  import opened Operators
  import opened Ast
  import L = Lexer
  import opened StmtParser

  /** "let x = 42". */
  lemma DefineVariable()
    ensures Parse([L.Let, L.Ident("x"), L.Equal, L.Int(42)]) == Some(DefVar("x", Int(42)))
  {
    VariableDefinitionShape([L.Let, L.Ident("x"), L.Equal, L.Int(42)], "x", Int(42));
  }

  /** "let = 42", "let x 42", "let x =" and "let 42 = x" are not statements. */
  lemma MalformedVariableDefinitions()
    ensures Parse([L.Let, L.Equal, L.Int(42)]) == None
    ensures Parse([L.Let, L.Ident("x"), L.Int(42)]) == None
    ensures Parse([L.Let, L.Ident("x"), L.Equal]) == None
    ensures Parse([L.Let, L.Int(42), L.Equal, L.Ident("x")]) == None
  {
    assert Sum([L.Let, L.Ident("x"), L.Equal], 3) == None;
  }

  /** The tokens of "let add(a, b) = a + b". */
  function AddDefinition(): seq<L.Token> {
    [L.Let, L.Ident("add"), L.LParen, L.Ident("a"), L.Comma, L.Ident("b"), L.RParen, L.Equal,
     L.Ident("a"), L.Plus, L.Ident("b")]
  }

  lemma AddDefinitionBody()
    ensures ExpressionAt(AddDefinition(), 8) == Some(Infix(Add, Variable("a"), Variable("b")))
  {
    var ts := AddDefinition();
    assert Power(ts, 8) == Some(Parsed(Variable("a"), 9));
    assert Power(ts, 10) == Some(Parsed(Variable("b"), 11));
    assert Product(ts, 8) == Some(Parsed(Variable("a"), 9));
  }

  lemma AddDefinitionParameters()
    ensures AddDefinition()[3..6] == NameTokens(["a", "b"])
  {
    var names := ["a", "b"];
    assert names[1..] == ["b"] && names[1..][1..] == [];
    assert NameTokens(names) == [L.Ident("a"), L.Comma, L.Ident("b")];
  }

  /** "let add(a, b) = a + b": the parameters keep their order. */
  lemma DefineFunction()
    ensures Parse(AddDefinition()) == Some(DefFun("add", ["a", "b"], Infix(Add, Variable("a"), Variable("b"))))
  {
    var ts := AddDefinition();
    AddDefinitionBody();
    AddDefinitionParameters();
    assert ts[..3] == [L.Let, L.Ident("add"), L.LParen];
    FunctionDefinitionComplete(ts, "add", ["a", "b"], Infix(Add, Variable("a"), Variable("b")));
  }

  /** "let add(a b) = a + b": parameters need a comma between them. */
  lemma MissingParameterCommaFails()
    ensures Parse([L.Let, L.Ident("add"), L.LParen, L.Ident("a"), L.Ident("b"), L.RParen, L.Equal,
                   L.Ident("a"), L.Plus, L.Ident("b")]) == None
  {
  }

  /** "2 3": two literals side by side are not a product. */
  lemma AdjacentLiteralsFail()
    ensures Parse([L.Int(2), L.Int(3)]) == None
  {
    var ts := [L.Int(2), L.Int(3)];
    assert Sum(ts, 0) == Some(Parsed(Int(2), 1));
  }

  /** The tokens of "2 sin(3)". */
  function LiteralCall(): seq<L.Token> {
    [L.Int(2), L.Ident("sin"), L.LParen, L.Int(3), L.RParen]
  }

  lemma LiteralCallCall()
    ensures Power(LiteralCall(), 1) == Some(Parsed(FnCall("sin", [Int(3)]), 5))
  {
    var ts := LiteralCall();
    assert Sum(ts, 3) == Some(Parsed(Int(3), 4));
    assert Arguments(ts, 3) == ([Int(3)], 4);
    assert Atomic(ts, 1) == Some(Parsed(FnCall("sin", [Int(3)]), 5));
  }

  /** "2 sin(3)": a literal next to a call multiplies. */
  lemma LiteralTimesCall()
    ensures Expression(LiteralCall()) == Some(Infix(Mul, Int(2), FnCall("sin", [Int(3)])))
  {
    var ts := LiteralCall();
    LiteralCallCall();
    assert Power(ts, 0) == Some(Parsed(Int(2), 1));
    assert Powers(ts, 0) == Some(Parsed(Infix(Mul, Int(2), FnCall("sin", [Int(3)])), 5));
  }

  /** "--1": the second minus sign belongs to the literal, the first negates it. */
  lemma DoubleMinus()
    ensures Expression([L.Minus, L.Minus, L.Int(1)]) == Some(Prefix(Neg, Int(-1)))
  {
  }

  /** "_" is the previous answer and "x" a variable. */
  lemma PlainAtoms()
    ensures Expression([L.Underscore]) == Some(PrevAnswer)
    ensures Expression([L.Ident("x")]) == Some(Variable("x"))
  {
  }

  /** "1 - 2 - 3": subtraction groups to the left. */
  lemma SubtractionGroupsLeft()
    ensures Expression([L.Int(1), L.Minus, L.Int(2), L.Minus, L.Int(3)])
         == Some(Infix(Sub, Infix(Sub, Int(1), Int(2)), Int(3)))
  {
    var ts := [L.Int(1), L.Minus, L.Int(2), L.Minus, L.Int(3)];
    assert Product(ts, 2) == Some(Parsed(Int(2), 3));
  }

  /** "2^3^4": exponentiation groups to the right. */
  lemma PowerGroupsRight()
    ensures Expression([L.Int(2), L.Caret, L.Int(3), L.Caret, L.Int(4)])
         == Some(Infix(Pow, Int(2), Infix(Pow, Int(3), Int(4))))
  {
    var ts := [L.Int(2), L.Caret, L.Int(3), L.Caret, L.Int(4)];
    assert Power(ts, 2) == Some(Parsed(Infix(Pow, Int(3), Int(4)), 5));
  }

  /** "2*3+4". */
  function TimesPlus(): seq<L.Token> {
    [L.Int(2), L.Asterisk, L.Int(3), L.Plus, L.Int(4)]
  }

  lemma TimesPlusFactors()
    ensures Powers(TimesPlus(), 0) == Some(Parsed(Int(2), 1))
    ensures Powers(TimesPlus(), 2) == Some(Parsed(Int(3), 3))
  {
    assert Power(TimesPlus(), 0) == Some(Parsed(Int(2), 1));
    assert Power(TimesPlus(), 2) == Some(Parsed(Int(3), 3));
  }

  lemma TimesPlusProducts()
    ensures Product(TimesPlus(), 0) == Some(Parsed(Infix(Mul, Int(2), Int(3)), 3))
    ensures Product(TimesPlus(), 4) == Some(Parsed(Int(4), 5))
  {
    TimesPlusFactors();
    assert ProductTail(TimesPlus(), Infix(Mul, Int(2), Int(3)), 3) == Parsed(Infix(Mul, Int(2), Int(3)), 3);
    assert Powers(TimesPlus(), 4) == Some(Parsed(Int(4), 5));
  }

  /** "2*3+4": multiplication binds tighter than addition. */
  lemma ProductBindsTighter()
    ensures Expression(TimesPlus()) == Some(Infix(Add, Infix(Mul, Int(2), Int(3)), Int(4)))
  {
    TimesPlusProducts();
  }

  /** "2 + 3 *": a trailing operator is not consumed, so the input is refused. */
  lemma TrailingOperatorFails()
    ensures Expression([L.Int(2), L.Plus, L.Int(3), L.Asterisk]) == None
  {
  }
}
