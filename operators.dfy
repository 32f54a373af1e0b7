/**
 * Operator kinds of the expression language and the symbols they print as
 * (src/models/operators.rs, and the same enums in src/types.rs).
 */
module Operators {
  import L = Lexer

  datatype PrefixOp = Neg

  datatype PostfixOp = Fac

  datatype InfixOp = Add | Sub | Mul | Div | Rem | Pow

  /** The token the lexer produces for the symbol of an infix operator. */
  function InfixToken(op: InfixOp): L.Token {
    match op
    case Add => L.Plus
    case Sub => L.Minus
    case Mul => L.Asterisk
    case Div => L.Slash
    case Rem => L.Percent
    case Pow => L.Caret
  }

  /** The printed symbol of Neg is the lexer's text of the Minus token. */
  function PrefixSymbol(op: PrefixOp): (s: string)
    ensures |s| == 1 && s == L.SymbolText(L.Minus)
  {
    "-"
  }

  /** The printed symbol of Fac is the lexer's text of the Exclamation token. */
  function PostfixSymbol(op: PostfixOp): (s: string)
    ensures |s| == 1 && s == L.SymbolText(L.Exclamation)
  {
    "!"
  }

  /** The printed symbol of an infix operator is the lexer's text of the operator's token. */
  function InfixSymbol(op: InfixOp): (s: string)
    ensures |s| == 1 && s == L.SymbolText(InfixToken(op))
  {
    match op
    case Add => "+"
    case Sub => "-"
    case Mul => "*"
    case Div => "/"
    case Rem => "%"
    case Pow => "^"
  }

  /** Printing an operator and lexing the text gives back exactly the operator's token. */
  lemma SymbolsLexBack(pre: PrefixOp, post: PostfixOp, op: InfixOp)
    ensures L.Lex(PrefixSymbol(pre)) == [(L.Minus, L.Span(0, 1))]
    ensures L.Lex(PostfixSymbol(post)) == [(L.Exclamation, L.Span(0, 1))]
    ensures L.Lex(InfixSymbol(op)) == [(InfixToken(op), L.Span(0, 1))]
  {
    L.SymbolLexesBack(L.Minus);
    L.SymbolLexesBack(L.Exclamation);
    L.SymbolLexesBack(InfixToken(op));
  }

  /** Distinct infix operators print distinctly, so a printed symbol names its operator. */
  lemma InfixSymbolInjective(a: InfixOp, b: InfixOp)
    ensures InfixSymbol(a) == InfixSymbol(b) <==> a == b
  {
  }

  /** Negation shares its symbol with subtraction and with no other operator;
      the factorial symbol is used by no infix operator. */
  lemma SharedSymbols(op: InfixOp)
    ensures InfixSymbol(op) == PrefixSymbol(Neg) <==> op == Sub
    ensures InfixSymbol(op) != PostfixSymbol(Fac)
  {
  }
}
