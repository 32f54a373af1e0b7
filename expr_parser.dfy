/**
 * The expression grammar of src/parser.rs, over the tokens of src/lexer.rs
 * (Space tokens included). Every production is a function from a position in
 * the token sequence to the tree it builds and the position after it, or None
 * where the parser fails. Choices commit to their first alternative that
 * succeeds and repetitions take as many rounds as succeed, as in a PEG.
 */
module ExprParser {
  import opened Wrappers
  import opened Operators
  import opened Ast
  import L = Lexer

  datatype Parsed = Parsed(e: Expr, pos: nat)

  /** Tokens an expression can begin with. */
  predicate StartsExpr(t: L.Token) {
    t.Space? || t.Number? || t.Minus? || t.Ident? || t.LParen?
  }

  /** Tokens an expression can end with. */
  predicate EndsExpr(t: L.Token) {
    t.Space? || t.Number? || t.RParen? || t.Exclamation?
  }

  /** A parse from i to j begins and ends with the tokens an expression can. */
  predicate Spans(ts: seq<L.Token>, i: nat, j: nat) {
    i < j <= |ts| && StartsExpr(ts[i]) && EndsExpr(ts[j - 1])
  }

  /** `whitespace`: an optional Space token. */
  function SkipSpace(ts: seq<L.Token>, i: nat): (j: nat)
    requires i <= |ts|
    ensures i <= j <= |ts|
    ensures j == i + 1 <==> (i < |ts| && ts[i].Space?)
  {
    if i < |ts| && ts[i].Space? then i + 1 else i
  }

  /** `number`: an optional minus sign folded into the literal that follows it. */
  function NumberLiteral(ts: seq<L.Token>, i: nat): (r: Option<Parsed>)
    requires i <= |ts|
    ensures r.Some? ==> Spans(ts, i, r.value.pos) && r.value.e.Number?
    ensures r.Some? <==> (i < |ts| && ts[i].Number?) || (i + 1 < |ts| && ts[i].Minus? && ts[i + 1].Number?)
    ensures r.Some? && ts[i].Minus? ==> r.value == Parsed(Number(-ts[i + 1].value), i + 2)
    ensures r.Some? && ts[i].Number? ==> r.value == Parsed(Number(ts[i].value), i + 1)
  {
    if i + 1 < |ts| && ts[i].Minus? && ts[i + 1].Number? then Some(Parsed(Number(-ts[i + 1].value), i + 2))
    else if i < |ts| && ts[i].Number? then Some(Parsed(Number(ts[i].value), i + 1))
    else None
  }

  /** `atomic`: a number, a function call, or a parenthesised expression. */
  function Atomic(ts: seq<L.Token>, i: nat): (r: Option<Parsed>)
    requires i <= |ts|
    ensures r.Some? ==> Spans(ts, i, r.value.pos)
    decreases |ts| - i, 1
  {
    match NumberLiteral(ts, i)
    case Some(n) => Some(n)
    case None =>
      match FunctionCall(ts, i)
      case Some(c) => Some(c)
      case None =>
        if i < |ts| && ts[i].LParen? then
          match Sum(ts, i + 1)
          case Some(p) =>
            if p.pos < |ts| && ts[p.pos].RParen? then Some(Parsed(p.e, p.pos + 1)) else None
          case None => None
        else None
  }

  /** `fn_call`: a name, then comma-separated arguments in parentheses. */
  function FunctionCall(ts: seq<L.Token>, i: nat): (r: Option<Parsed>)
    requires i <= |ts|
    ensures r.Some? ==> Spans(ts, i, r.value.pos) && r.value.e.FnCall?
    decreases |ts| - i, 0
  {
    if i + 1 < |ts| && ts[i].Ident? && ts[i + 1].LParen? then
      var (args, j) := Arguments(ts, i + 2);
      if j < |ts| && ts[j].RParen? then Some(Parsed(FnCall(ts[i].name, args), j + 1)) else None
    else None
  }

  /** `expr.separated_by(just(Comma))`: zero or more expressions; never fails. */
  function Arguments(ts: seq<L.Token>, i: nat): (r: (seq<Expr>, nat))
    requires i <= |ts|
    ensures i <= r.1 <= |ts|
    ensures r.1 == i <==> r.0 == []
    ensures r.1 > i ==> EndsExpr(ts[r.1 - 1])
    decreases |ts| - i, 12
  {
    match Sum(ts, i)
    case None => ([], i)
    case Some(first) => ArgumentsTail(ts, [first.e], first.pos)
  }

  function ArgumentsTail(ts: seq<L.Token>, args: seq<Expr>, i: nat): (r: (seq<Expr>, nat))
    requires 0 < i <= |ts|
    ensures i <= r.1 <= |ts| && |r.0| >= |args|
    ensures r.1 == i ==> r.0 == args
    ensures EndsExpr(ts[i - 1]) ==> EndsExpr(ts[r.1 - 1])
    decreases |ts| - i, 13
  {
    if i < |ts| && ts[i].Comma? then
      match Sum(ts, i + 1)
      case None => (args, i)
      case Some(p) => ArgumentsTail(ts, args + [p.e], p.pos)
    else (args, i)
  }

  /** `postfixed`: an atom, with at most one `!` directly after it. */
  function Postfixed(ts: seq<L.Token>, i: nat): (r: Option<Parsed>)
    requires i <= |ts|
    ensures r.Some? ==> Spans(ts, i, r.value.pos)
    decreases |ts| - i, 2
  {
    match Atomic(ts, i)
    case None => None
    case Some(a) =>
      if a.pos < |ts| && ts[a.pos].Exclamation? then Some(Parsed(Postfix(Fac, a.e), a.pos + 1)) else Some(a)
  }

  /** `prefixed`: a postfixed term, or a minus sign and a postfixed term. */
  function Prefixed(ts: seq<L.Token>, i: nat): (r: Option<Parsed>)
    requires i <= |ts|
    ensures r.Some? ==> Spans(ts, i, r.value.pos)
    decreases |ts| - i, 3
  {
    match Postfixed(ts, i)
    case Some(p) => Some(p)
    case None =>
      if i < |ts| && ts[i].Minus? then
        match Postfixed(ts, i + 1)
        case Some(p) => Some(Parsed(Prefix(Neg, p.e), p.pos))
        case None => None
      else None
  }

  /** `term`: a prefixed term with optional white space on either side. */
  function Term(ts: seq<L.Token>, i: nat): (r: Option<Parsed>)
    requires i <= |ts|
    ensures r.Some? ==> Spans(ts, i, r.value.pos)
    decreases |ts| - i, 4
  {
    var j := SkipSpace(ts, i);
    match Prefixed(ts, j)
    case None => None
    case Some(p) => Some(Parsed(p.e, SkipSpace(ts, p.pos)))
  }

  /** `power`: terms joined by `^`, grouped to the right. */
  function Power(ts: seq<L.Token>, i: nat): (r: Option<Parsed>)
    requires i <= |ts|
    ensures r.Some? ==> Spans(ts, i, r.value.pos)
    decreases |ts| - i, 5
  {
    match Term(ts, i)
    case None => None
    case Some(t) =>
      if t.pos < |ts| && ts[t.pos].Caret? then
        match Power(ts, t.pos + 1)
        case None => None
        case Some(rest) => Some(Parsed(Infix(Pow, t.e, rest.e), rest.pos))
      else Some(t)
  }

  /** `powers`: powers written next to each other multiply, unless the next one starts with a minus sign. */
  function Powers(ts: seq<L.Token>, i: nat): (r: Option<Parsed>)
    requires i <= |ts|
    ensures r.Some? ==> Spans(ts, i, r.value.pos)
    decreases |ts| - i, 7
  {
    match Power(ts, i)
    case None => None
    case Some(p) => Some(PowersTail(ts, p.e, p.pos))
  }

  function PowersTail(ts: seq<L.Token>, acc: Expr, i: nat): (r: Parsed)
    requires 0 < i <= |ts|
    ensures i <= r.pos <= |ts|
    ensures EndsExpr(ts[i - 1]) ==> EndsExpr(ts[r.pos - 1])
    decreases |ts| - i, 6
  {
    if !(i < |ts| && ts[i].Minus?) then
      match Power(ts, i)
      case None => Parsed(acc, i)
      case Some(p) => PowersTail(ts, Infix(Mul, acc, p.e), p.pos)
    else Parsed(acc, i)
  }

  /** The operator a token stands for in a product. */
  function ProductOp(t: L.Token): Option<InfixOp> {
    match t
    case Asterisk => Some(Mul)
    case Slash => Some(Div)
    case Percent => Some(Rem)
    case _ => None
  }

  /** The operator a token stands for in a sum. */
  function SumOp(t: L.Token): Option<InfixOp> {
    match t
    case Plus => Some(Add)
    case Minus => Some(Sub)
    case _ => None
  }

  /** `product`: `*`, `/` and `%` between powers, grouped to the left. */
  function Product(ts: seq<L.Token>, i: nat): (r: Option<Parsed>)
    requires i <= |ts|
    ensures r.Some? ==> Spans(ts, i, r.value.pos)
    decreases |ts| - i, 9
  {
    match Powers(ts, i)
    case None => None
    case Some(p) => Some(ProductTail(ts, p.e, p.pos))
  }

  function ProductTail(ts: seq<L.Token>, acc: Expr, i: nat): (r: Parsed)
    requires 0 < i <= |ts|
    ensures i <= r.pos <= |ts|
    ensures EndsExpr(ts[i - 1]) ==> EndsExpr(ts[r.pos - 1])
    decreases |ts| - i, 8
  {
    if i < |ts| && ProductOp(ts[i]).Some? then
      match Powers(ts, i + 1)
      case None => Parsed(acc, i)
      case Some(p) => ProductTail(ts, Infix(ProductOp(ts[i]).value, acc, p.e), p.pos)
    else Parsed(acc, i)
  }

  /** `sum`: `+` and `-` between products, grouped to the left; the whole expression. */
  function Sum(ts: seq<L.Token>, i: nat): (r: Option<Parsed>)
    requires i <= |ts|
    ensures r.Some? ==> Spans(ts, i, r.value.pos)
    decreases |ts| - i, 11
  {
    match Product(ts, i)
    case None => None
    case Some(p) => Some(SumTail(ts, p.e, p.pos))
  }

  function SumTail(ts: seq<L.Token>, acc: Expr, i: nat): (r: Parsed)
    requires 0 < i <= |ts|
    ensures i <= r.pos <= |ts|
    ensures EndsExpr(ts[i - 1]) ==> EndsExpr(ts[r.pos - 1])
    decreases |ts| - i, 10
  {
    if i < |ts| && SumOp(ts[i]).Some? then
      match Product(ts, i + 1)
      case None => Parsed(acc, i)
      case Some(p) => SumTail(ts, Infix(SumOp(ts[i]).value, acc, p.e), p.pos)
    else Parsed(acc, i)
  }

  /** `parser().parse(..)`: an expression that uses up every token. */
  function Parse(ts: seq<L.Token>): (r: Option<Expr>)
    ensures r.Some? ==> |ts| > 0 && StartsExpr(ts[0]) && EndsExpr(ts[|ts| - 1])
  {
    match Sum(ts, 0)
    case Some(p) => if p.pos == |ts| then Some(p.e) else None
    case None => None
  }

  // ---------------------------------------------------------------------
  // Grouping and precedence, for every token sequence

  /** The parser reads the token of each printed infix operator back as that operator. */
  lemma OperatorTokensParse(op: InfixOp)
    ensures SumOp(InfixToken(op)) == (if op == Add || op == Sub then Some(op) else None)
    ensures ProductOp(InfixToken(op)) == (if op == Mul || op == Div || op == Rem then Some(op) else None)
    ensures InfixToken(op).Caret? <==> op == Pow
  {
  }

  /** A minus sign directly before a number is folded into the literal, not read as Neg. */
  lemma NegativeLiteralFolds(ts: seq<L.Token>, i: nat)
    requires i + 1 < |ts| && ts[i].Minus? && ts[i + 1].Number?
    ensures Atomic(ts, i) == Some(Parsed(Number(-ts[i + 1].value), i + 2))
    ensures Prefixed(ts, i) == Postfixed(ts, i)
  {
  }

  /** `a op b op' c` with sum operators groups to the left: `(a op b) op' c`. */
  lemma SumGroupsLeft(ts: seq<L.Token>, i: nat, a: Parsed, b: Parsed, c: Parsed)
    requires i <= |ts| && Product(ts, i) == Some(a)
    requires a.pos < |ts| && SumOp(ts[a.pos]).Some? && Product(ts, a.pos + 1) == Some(b)
    requires b.pos < |ts| && SumOp(ts[b.pos]).Some? && Product(ts, b.pos + 1) == Some(c)
    requires c.pos == |ts| || SumOp(ts[c.pos]).None?
    ensures Sum(ts, i) == Some(Parsed(Infix(SumOp(ts[b.pos]).value, Infix(SumOp(ts[a.pos]).value, a.e, b.e), c.e), c.pos))
  {
    var inner := Infix(SumOp(ts[a.pos]).value, a.e, b.e);
    var outer := Infix(SumOp(ts[b.pos]).value, inner, c.e);
    assert SumTail(ts, outer, c.pos) == Parsed(outer, c.pos);
    assert SumTail(ts, inner, b.pos) == SumTail(ts, outer, c.pos);
    assert SumTail(ts, a.e, a.pos) == SumTail(ts, inner, b.pos);
  }

  /** `a op b op' c` with product operators groups to the left: `(a op b) op' c`. */
  lemma ProductGroupsLeft(ts: seq<L.Token>, i: nat, a: Parsed, b: Parsed, c: Parsed)
    requires i <= |ts| && Powers(ts, i) == Some(a)
    requires a.pos < |ts| && ProductOp(ts[a.pos]).Some? && Powers(ts, a.pos + 1) == Some(b)
    requires b.pos < |ts| && ProductOp(ts[b.pos]).Some? && Powers(ts, b.pos + 1) == Some(c)
    requires c.pos == |ts| || ProductOp(ts[c.pos]).None?
    ensures Product(ts, i) == Some(Parsed(Infix(ProductOp(ts[b.pos]).value, Infix(ProductOp(ts[a.pos]).value, a.e, b.e), c.e), c.pos))
  {
    var inner := Infix(ProductOp(ts[a.pos]).value, a.e, b.e);
    var outer := Infix(ProductOp(ts[b.pos]).value, inner, c.e);
    assert ProductTail(ts, outer, c.pos) == Parsed(outer, c.pos);
    assert ProductTail(ts, inner, b.pos) == ProductTail(ts, outer, c.pos);
    assert ProductTail(ts, a.e, a.pos) == ProductTail(ts, inner, b.pos);
  }

  /** `a ^ b ^ c` groups to the right: `a ^ (b ^ c)`. */
  lemma PowerGroupsRight(ts: seq<L.Token>, i: nat, a: Parsed, b: Parsed, c: Parsed)
    requires i <= |ts| && Term(ts, i) == Some(a)
    requires a.pos < |ts| && ts[a.pos].Caret? && Term(ts, a.pos + 1) == Some(b)
    requires b.pos < |ts| && ts[b.pos].Caret? && Power(ts, b.pos + 1) == Some(c)
    ensures Power(ts, i) == Some(Parsed(Infix(Pow, a.e, Infix(Pow, b.e, c.e)), c.pos))
  {
    assert Power(ts, a.pos + 1) == Some(Parsed(Infix(Pow, b.e, c.e), c.pos));
  }

  /** In `a * b + c` the product is the left operand of the sum. */
  lemma ProductBeforeSum(ts: seq<L.Token>, i: nat, a: Parsed, b: Parsed, c: Parsed)
    requires i <= |ts| && Powers(ts, i) == Some(a)
    requires a.pos < |ts| && ProductOp(ts[a.pos]).Some? && Powers(ts, a.pos + 1) == Some(b)
    requires b.pos < |ts| && SumOp(ts[b.pos]).Some? && Product(ts, b.pos + 1) == Some(c)
    requires c.pos == |ts| || SumOp(ts[c.pos]).None?
    ensures Sum(ts, i) == Some(Parsed(Infix(SumOp(ts[b.pos]).value, Infix(ProductOp(ts[a.pos]).value, a.e, b.e), c.e), c.pos))
  {
    var product := Infix(ProductOp(ts[a.pos]).value, a.e, b.e);
    var sum := Infix(SumOp(ts[b.pos]).value, product, c.e);
    assert ProductTail(ts, product, b.pos) == Parsed(product, b.pos);
    assert ProductTail(ts, a.e, a.pos) == ProductTail(ts, product, b.pos);
    assert Product(ts, i) == Some(Parsed(product, b.pos));
    assert SumTail(ts, sum, c.pos) == Parsed(sum, c.pos);
    assert SumTail(ts, product, b.pos) == SumTail(ts, sum, c.pos);
  }

  /** In `a + b * c` the product is the right operand of the sum. */
  lemma ProductAfterSum(ts: seq<L.Token>, i: nat, a: Parsed, b: Parsed, c: Parsed)
    requires i <= |ts| && Product(ts, i) == Some(a)
    requires a.pos < |ts| && SumOp(ts[a.pos]).Some? && Powers(ts, a.pos + 1) == Some(b)
    requires b.pos < |ts| && ProductOp(ts[b.pos]).Some? && Powers(ts, b.pos + 1) == Some(c)
    requires c.pos == |ts| || (ProductOp(ts[c.pos]).None? && SumOp(ts[c.pos]).None?)
    ensures Sum(ts, i) == Some(Parsed(Infix(SumOp(ts[a.pos]).value, a.e, Infix(ProductOp(ts[b.pos]).value, b.e, c.e)), c.pos))
  {
    var product := Infix(ProductOp(ts[b.pos]).value, b.e, c.e);
    var sum := Infix(SumOp(ts[a.pos]).value, a.e, product);
    assert ProductTail(ts, product, c.pos) == Parsed(product, c.pos);
    assert ProductTail(ts, b.e, b.pos) == ProductTail(ts, product, c.pos);
    assert Product(ts, a.pos + 1) == Some(Parsed(product, c.pos));
    assert SumTail(ts, sum, c.pos) == Parsed(sum, c.pos);
    assert SumTail(ts, a.e, a.pos) == SumTail(ts, sum, c.pos);
  }

  /** Two powers written next to each other multiply when the second does not start with a minus sign. */
  lemma JuxtapositionMultiplies(ts: seq<L.Token>, i: nat, a: Parsed, b: Parsed)
    requires i <= |ts| && Power(ts, i) == Some(a)
    requires a.pos < |ts| && !ts[a.pos].Minus? && Power(ts, a.pos) == Some(b)
    requires b.pos == |ts| || ts[b.pos].Minus? || Power(ts, b.pos).None?
    ensures Powers(ts, i) == Some(Parsed(Infix(Mul, a.e, b.e), b.pos))
  {
    assert PowersTail(ts, Infix(Mul, a.e, b.e), b.pos) == Parsed(Infix(Mul, a.e, b.e), b.pos);
  }

  /** A minus sign after a power is never an implicit product: it is left for the sum. */
  lemma MinusStopsJuxtaposition(ts: seq<L.Token>, i: nat, a: Parsed)
    requires i <= |ts| && Power(ts, i) == Some(a)
    requires a.pos < |ts| && ts[a.pos].Minus?
    ensures Powers(ts, i) == Some(a)
  {
  }

  // ---------------------------------------------------------------------
  // Each production, for every token sequence

  /** A parenthesised group is the sum inside it, with no node of its own. */
  lemma GroupParses(ts: seq<L.Token>, i: nat)
    requires i < |ts| && ts[i].LParen?
    ensures Atomic(ts, i).Some? <==> Sum(ts, i + 1).Some? && Sum(ts, i + 1).value.pos < |ts| && ts[Sum(ts, i + 1).value.pos].RParen?
    ensures Atomic(ts, i).Some? ==> Atomic(ts, i).value == Parsed(Sum(ts, i + 1).value.e, Sum(ts, i + 1).value.pos + 1)
  {
  }

  /** A name followed by `(` is a call whose arguments are what the argument list reads, closed by `)`. */
  lemma CallParses(ts: seq<L.Token>, i: nat)
    requires i + 1 < |ts| && ts[i].Ident? && ts[i + 1].LParen?
    ensures Atomic(ts, i).Some? <==> Arguments(ts, i + 2).1 < |ts| && ts[Arguments(ts, i + 2).1].RParen?
    ensures Atomic(ts, i).Some? ==> Atomic(ts, i).value == Parsed(FnCall(ts[i].name, Arguments(ts, i + 2).0), Arguments(ts, i + 2).1 + 1)
  {
  }

  /** At most one `!` is taken: the atom becomes Postfix(Fac, atom) exactly when `!` directly follows it. */
  lemma PostfixedFactorial(ts: seq<L.Token>, i: nat)
    requires i <= |ts|
    ensures Postfixed(ts, i).Some? <==> Atomic(ts, i).Some?
    ensures Atomic(ts, i).Some? && Atomic(ts, i).value.pos < |ts| && ts[Atomic(ts, i).value.pos].Exclamation? ==>
      Postfixed(ts, i).value == Parsed(Postfix(Fac, Atomic(ts, i).value.e), Atomic(ts, i).value.pos + 1)
    ensures Atomic(ts, i).Some? && !(Atomic(ts, i).value.pos < |ts| && ts[Atomic(ts, i).value.pos].Exclamation?) ==>
      Postfixed(ts, i) == Atomic(ts, i)
  {
  }

  /** Without a leading minus sign a prefixed term is the postfixed term; a minus sign that does not start a literal is Neg of the postfixed term after it. */
  lemma PrefixedNegation(ts: seq<L.Token>, i: nat)
    requires i <= |ts|
    ensures !(i < |ts| && ts[i].Minus?) ==> Prefixed(ts, i) == Postfixed(ts, i)
    ensures i < |ts| && ts[i].Minus? && !(i + 1 < |ts| && ts[i + 1].Number?) ==>
      (Prefixed(ts, i).Some? <==> Postfixed(ts, i + 1).Some?)
      && (Prefixed(ts, i).Some? ==> Prefixed(ts, i).value == Parsed(Prefix(Neg, Postfixed(ts, i + 1).value.e), Postfixed(ts, i + 1).value.pos))
  {
    if i < |ts| && ts[i].Minus? && !(i + 1 < |ts| && ts[i + 1].Number?) {
      assert NumberLiteral(ts, i).None? && FunctionCall(ts, i).None?;
      assert Atomic(ts, i).None?;
    }
  }

  // ---------------------------------------------------------------------
  // Chains of any length

  /** From i the tokens hold, for each k, a comma and then the expression es[k], ending at j. */
  predicate ArgumentChain(ts: seq<L.Token>, i: nat, es: seq<Expr>, j: nat)
    decreases |es|
  {
    if es == [] then j == i
    else
      i < |ts| && ts[i].Comma? && Sum(ts, i + 1).Some? && Sum(ts, i + 1).value.e == es[0]
      && ArgumentChain(ts, Sum(ts, i + 1).value.pos, es[1..], j)
  }

  /** No further `, expression` starts at j. */
  predicate ArgumentsStop(ts: seq<L.Token>, j: nat) {
    j >= |ts| || !ts[j].Comma? || Sum(ts, j + 1).None?
  }

  /** Any chain of `, expression` is appended to the arguments read so far, in order. */
  lemma {:induction false} ArgumentsTailCollects(ts: seq<L.Token>, args: seq<Expr>, i: nat, es: seq<Expr>, j: nat)
    requires 0 < i <= |ts| && ArgumentChain(ts, i, es, j) && j <= |ts| && ArgumentsStop(ts, j)
    ensures ArgumentsTail(ts, args, i) == (args + es, j)
    decreases |es|
  {
    if es == [] {
      assert args + es == args;
    } else {
      var p := Sum(ts, i + 1).value;
      ArgumentsTailCollects(ts, args + [p.e], p.pos, es[1..], j);
      assert args + [p.e] + es[1..] == args + es;
    }
  }

  /** Conversely, whatever ArgumentsTail returns is the arguments so far followed by such a chain. */
  lemma {:induction false} ArgumentsTailIsChain(ts: seq<L.Token>, args: seq<Expr>, i: nat)
    requires 0 < i <= |ts|
    ensures exists es :: ArgumentChain(ts, i, es, ArgumentsTail(ts, args, i).1) && ArgumentsTail(ts, args, i).0 == args + es
    ensures ArgumentsStop(ts, ArgumentsTail(ts, args, i).1)
    decreases |ts| - i
  {
    var r := ArgumentsTail(ts, args, i);
    if i < |ts| && ts[i].Comma? && Sum(ts, i + 1).Some? {
      var p := Sum(ts, i + 1).value;
      ArgumentsTailIsChain(ts, args + [p.e], p.pos);
      var es :| ArgumentChain(ts, p.pos, es, r.1) && r.0 == args + [p.e] + es;
      assert ([p.e] + es)[1..] == es;
      assert ArgumentChain(ts, i, [p.e] + es, r.1);
      assert r.0 == args + ([p.e] + es);
    } else {
      assert ArgumentChain(ts, i, [], i);
      assert r.0 == args + [];
    }
  }

  /** From i the tokens hold, for each k, an operand es[k] that juxtaposition takes (no minus sign in front), ending at j. */
  predicate JuxtapositionChain(ts: seq<L.Token>, i: nat, es: seq<Expr>, j: nat)
    decreases |es|
  {
    if es == [] then j == i
    else
      i < |ts| && !ts[i].Minus? && Power(ts, i).Some? && Power(ts, i).value.e == es[0]
      && JuxtapositionChain(ts, Power(ts, i).value.pos, es[1..], j)
  }

  /** No further juxtaposed power starts at j. */
  predicate JuxtapositionStops(ts: seq<L.Token>, j: nat) {
    j >= |ts| || ts[j].Minus? || Power(ts, j).None?
  }

  lemma JuxtapositionChainCons(ts: seq<L.Token>, i: nat, p: Parsed, es: seq<Expr>, j: nat)
    requires i < |ts| && !ts[i].Minus? && Power(ts, i) == Some(p) && JuxtapositionChain(ts, p.pos, es, j)
    ensures JuxtapositionChain(ts, i, [p.e] + es, j)
  {
    assert ([p.e] + es)[1..] == es;
  }

  /** A product over the chain after one more juxtaposed power is a product over the longer chain. */
  lemma JuxtapositionFoldStep(ts: seq<L.Token>, acc: Expr, i: nat, p: Parsed, r: Parsed)
    requires i < |ts| && !ts[i].Minus? && Power(ts, i) == Some(p)
    requires exists es :: JuxtapositionChain(ts, p.pos, es, r.pos) && r.e == LeftNest(Infix(Mul, acc, p.e), Muls(|es|), es)
    ensures exists es :: JuxtapositionChain(ts, i, es, r.pos) && r.e == LeftNest(acc, Muls(|es|), es)
  {
    var es :| JuxtapositionChain(ts, p.pos, es, r.pos) && r.e == LeftNest(Infix(Mul, acc, p.e), Muls(|es|), es);
    JuxtapositionChainCons(ts, i, p, es, r.pos);
    assert Muls(|es| + 1) == [Mul] + Muls(|es|);
    LeftNestCons(acc, Mul, p.e, Muls(|es|), es);
    assert JuxtapositionChain(ts, i, [p.e] + es, r.pos) && r.e == LeftNest(acc, Muls(|[p.e] + es|), [p.e] + es);
  }

  /** Any chain of juxtaposed powers is multiplied onto the accumulator, grouped to the left. */
  lemma {:induction false} PowersTailFolds(ts: seq<L.Token>, acc: Expr, i: nat, es: seq<Expr>, j: nat)
    requires 0 < i <= |ts| && JuxtapositionChain(ts, i, es, j) && j <= |ts| && JuxtapositionStops(ts, j)
    ensures PowersTail(ts, acc, i) == Parsed(LeftNest(acc, Muls(|es|), es), j)
    decreases |es|
  {
    if es != [] {
      var p := Power(ts, i).value;
      PowersTailFolds(ts, Infix(Mul, acc, p.e), p.pos, es[1..], j);
      assert PowersTail(ts, acc, i) == PowersTail(ts, Infix(Mul, acc, p.e), p.pos);
      assert Muls(|es|) == [Mul] + Muls(|es| - 1);
      assert es == [p.e] + es[1..];
      LeftNestCons(acc, Mul, p.e, Muls(|es| - 1), es[1..]);
    }
  }

  /** Conversely, whatever PowersTail returns is such a product over such a chain. */
  lemma {:induction false} PowersTailIsFold(ts: seq<L.Token>, acc: Expr, i: nat)
    requires 0 < i <= |ts|
    ensures exists es :: JuxtapositionChain(ts, i, es, PowersTail(ts, acc, i).pos) && PowersTail(ts, acc, i).e == LeftNest(acc, Muls(|es|), es)
    ensures JuxtapositionStops(ts, PowersTail(ts, acc, i).pos)
    decreases |ts| - i
  {
    var r := PowersTail(ts, acc, i);
    if i < |ts| && !ts[i].Minus? && Power(ts, i).Some? {
      var p := Power(ts, i).value;
      assert r == PowersTail(ts, Infix(Mul, acc, p.e), p.pos);
      PowersTailIsFold(ts, Infix(Mul, acc, p.e), p.pos);
      JuxtapositionFoldStep(ts, acc, i, p, r);
    } else {
      assert r == Parsed(acc, i);
      assert JuxtapositionChain(ts, i, [], i) && r.e == LeftNest(acc, Muls(0), []);
    }
  }

  /** From i the tokens hold, for each k, a product operator ops[k] and then the operand es[k], ending at j. */
  predicate ProductChain(ts: seq<L.Token>, i: nat, ops: seq<InfixOp>, es: seq<Expr>, j: nat)
    decreases |es|
  {
    |ops| == |es| &&
    if es == [] then j == i
    else
      i < |ts| && ProductOp(ts[i]) == Some(ops[0]) && Powers(ts, i + 1).Some? && Powers(ts, i + 1).value.e == es[0]
      && ProductChain(ts, Powers(ts, i + 1).value.pos, ops[1..], es[1..], j)
  }

  lemma ProductChainCons(ts: seq<L.Token>, i: nat, op: InfixOp, p: Parsed, ops: seq<InfixOp>, es: seq<Expr>, j: nat)
    requires i < |ts| && ProductOp(ts[i]) == Some(op) && Powers(ts, i + 1) == Some(p) && ProductChain(ts, p.pos, ops, es, j)
    ensures ProductChain(ts, i, [op] + ops, [p.e] + es, j)
  {
    assert ([op] + ops)[1..] == ops && ([p.e] + es)[1..] == es;
  }

  /** A fold over the chain after one more `op powers` is a fold over the longer chain. */
  lemma ProductFoldStep(ts: seq<L.Token>, acc: Expr, i: nat, op: InfixOp, p: Parsed, r: Parsed)
    requires i < |ts| && ProductOp(ts[i]) == Some(op) && Powers(ts, i + 1) == Some(p)
    requires exists ops, es :: ProductChain(ts, p.pos, ops, es, r.pos) && r.e == LeftNest(Infix(op, acc, p.e), ops, es)
    ensures exists ops, es :: ProductChain(ts, i, ops, es, r.pos) && r.e == LeftNest(acc, ops, es)
  {
    var ops, es :| ProductChain(ts, p.pos, ops, es, r.pos) && r.e == LeftNest(Infix(op, acc, p.e), ops, es);
    ProductChainCons(ts, i, op, p, ops, es, r.pos);
    LeftNestCons(acc, op, p.e, ops, es);
    assert ProductChain(ts, i, [op] + ops, [p.e] + es, r.pos) && r.e == LeftNest(acc, [op] + ops, [p.e] + es);
  }

  /** No further `op powers` starts at j. */
  predicate ProductStops(ts: seq<L.Token>, j: nat) {
    j >= |ts| || ProductOp(ts[j]).None? || Powers(ts, j + 1).None?
  }

  /** Any chain of `*`, `/` and `%` operands is folded onto the accumulator, grouped to the left. */
  lemma {:induction false} ProductTailFolds(ts: seq<L.Token>, acc: Expr, i: nat, ops: seq<InfixOp>, es: seq<Expr>, j: nat)
    requires 0 < i <= |ts| && ProductChain(ts, i, ops, es, j) && j <= |ts| && ProductStops(ts, j)
    ensures ProductTail(ts, acc, i) == Parsed(LeftNest(acc, ops, es), j)
    decreases |es|
  {
    if es != [] {
      var p := Powers(ts, i + 1).value;
      ProductTailFolds(ts, Infix(ops[0], acc, p.e), p.pos, ops[1..], es[1..], j);
      assert ProductTail(ts, acc, i) == ProductTail(ts, Infix(ops[0], acc, p.e), p.pos);
      assert ops == [ops[0]] + ops[1..] && es == [p.e] + es[1..];
      LeftNestCons(acc, ops[0], p.e, ops[1..], es[1..]);
    }
  }

  /** Conversely, whatever ProductTail returns is such a fold over such a chain. */
  lemma {:induction false} ProductTailIsFold(ts: seq<L.Token>, acc: Expr, i: nat)
    requires 0 < i <= |ts|
    ensures exists ops, es :: ProductChain(ts, i, ops, es, ProductTail(ts, acc, i).pos) && ProductTail(ts, acc, i).e == LeftNest(acc, ops, es)
    ensures ProductStops(ts, ProductTail(ts, acc, i).pos)
    decreases |ts| - i
  {
    var r := ProductTail(ts, acc, i);
    if i < |ts| && ProductOp(ts[i]).Some? && Powers(ts, i + 1).Some? {
      var op := ProductOp(ts[i]).value;
      var p := Powers(ts, i + 1).value;
      assert r == ProductTail(ts, Infix(op, acc, p.e), p.pos);
      ProductTailIsFold(ts, Infix(op, acc, p.e), p.pos);
      ProductFoldStep(ts, acc, i, op, p, r);
    } else {
      assert r == Parsed(acc, i);
      assert ProductChain(ts, i, [], [], i) && r.e == LeftNest(acc, [], []);
    }
  }

  /** From i the tokens hold, for each k, a sum operator ops[k] and then the product es[k], ending at j. */
  predicate SumChain(ts: seq<L.Token>, i: nat, ops: seq<InfixOp>, es: seq<Expr>, j: nat)
    decreases |es|
  {
    |ops| == |es| &&
    if es == [] then j == i
    else
      i < |ts| && SumOp(ts[i]) == Some(ops[0]) && Product(ts, i + 1).Some? && Product(ts, i + 1).value.e == es[0]
      && SumChain(ts, Product(ts, i + 1).value.pos, ops[1..], es[1..], j)
  }

  lemma SumChainCons(ts: seq<L.Token>, i: nat, op: InfixOp, p: Parsed, ops: seq<InfixOp>, es: seq<Expr>, j: nat)
    requires i < |ts| && SumOp(ts[i]) == Some(op) && Product(ts, i + 1) == Some(p) && SumChain(ts, p.pos, ops, es, j)
    ensures SumChain(ts, i, [op] + ops, [p.e] + es, j)
  {
    assert ([op] + ops)[1..] == ops && ([p.e] + es)[1..] == es;
  }

  /** A fold over the chain after one more `op product` is a fold over the longer chain. */
  lemma SumFoldStep(ts: seq<L.Token>, acc: Expr, i: nat, op: InfixOp, p: Parsed, r: Parsed)
    requires i < |ts| && SumOp(ts[i]) == Some(op) && Product(ts, i + 1) == Some(p)
    requires exists ops, es :: SumChain(ts, p.pos, ops, es, r.pos) && r.e == LeftNest(Infix(op, acc, p.e), ops, es)
    ensures exists ops, es :: SumChain(ts, i, ops, es, r.pos) && r.e == LeftNest(acc, ops, es)
  {
    var ops, es :| SumChain(ts, p.pos, ops, es, r.pos) && r.e == LeftNest(Infix(op, acc, p.e), ops, es);
    SumChainCons(ts, i, op, p, ops, es, r.pos);
    LeftNestCons(acc, op, p.e, ops, es);
    assert SumChain(ts, i, [op] + ops, [p.e] + es, r.pos) && r.e == LeftNest(acc, [op] + ops, [p.e] + es);
  }

  /** No further `op product` starts at j. */
  predicate SumStops(ts: seq<L.Token>, j: nat) {
    j >= |ts| || SumOp(ts[j]).None? || Product(ts, j + 1).None?
  }

  /** Any chain of `+` and `-` operands is folded onto the accumulator, grouped to the left. */
  lemma {:induction false} SumTailFolds(ts: seq<L.Token>, acc: Expr, i: nat, ops: seq<InfixOp>, es: seq<Expr>, j: nat)
    requires 0 < i <= |ts| && SumChain(ts, i, ops, es, j) && j <= |ts| && SumStops(ts, j)
    ensures SumTail(ts, acc, i) == Parsed(LeftNest(acc, ops, es), j)
    decreases |es|
  {
    if es != [] {
      var p := Product(ts, i + 1).value;
      SumTailFolds(ts, Infix(ops[0], acc, p.e), p.pos, ops[1..], es[1..], j);
      assert SumTail(ts, acc, i) == SumTail(ts, Infix(ops[0], acc, p.e), p.pos);
      assert ops == [ops[0]] + ops[1..] && es == [p.e] + es[1..];
      LeftNestCons(acc, ops[0], p.e, ops[1..], es[1..]);
    }
  }

  /** Conversely, whatever SumTail returns is such a fold over such a chain. */
  lemma {:induction false} SumTailIsFold(ts: seq<L.Token>, acc: Expr, i: nat)
    requires 0 < i <= |ts|
    ensures exists ops, es :: SumChain(ts, i, ops, es, SumTail(ts, acc, i).pos) && SumTail(ts, acc, i).e == LeftNest(acc, ops, es)
    ensures SumStops(ts, SumTail(ts, acc, i).pos)
    decreases |ts| - i
  {
    var r := SumTail(ts, acc, i);
    if i < |ts| && SumOp(ts[i]).Some? && Product(ts, i + 1).Some? {
      var op := SumOp(ts[i]).value;
      var p := Product(ts, i + 1).value;
      assert r == SumTail(ts, Infix(op, acc, p.e), p.pos);
      SumTailIsFold(ts, Infix(op, acc, p.e), p.pos);
      SumFoldStep(ts, acc, i, op, p, r);
    } else {
      assert r == Parsed(acc, i);
      assert SumChain(ts, i, [], [], i) && r.e == LeftNest(acc, [], []);
    }
  }

  /** From i the tokens hold the terms es joined by `^`, the last ending at j with no `^` after it. */
  predicate PowerChain(ts: seq<L.Token>, i: nat, es: seq<Expr>, j: nat)
    decreases |es|
  {
    es != [] && i <= |ts| && Term(ts, i).Some? && Term(ts, i).value.e == es[0]
    && var k := Term(ts, i).value.pos;
       if |es| == 1 then j == k && !(k < |ts| && ts[k].Caret?)
       else k < |ts| && ts[k].Caret? && PowerChain(ts, k + 1, es[1..], j)
  }

  /** Any chain of terms joined by `^` is grouped to the right. */
  lemma {:induction false} PowerNestsRight(ts: seq<L.Token>, i: nat, es: seq<Expr>, j: nat)
    requires PowerChain(ts, i, es, j)
    ensures Power(ts, i) == Some(Parsed(RightNest(Pow, es), j))
    decreases |es|
  {
    if |es| > 1 {
      PowerNestsRight(ts, Term(ts, i).value.pos + 1, es[1..], j);
    }
  }

  /** Conversely, whatever Power returns is the right-grouped chain of its terms. */
  lemma {:induction false} PowerIsRightNest(ts: seq<L.Token>, i: nat)
    requires i <= |ts| && Power(ts, i).Some?
    ensures exists es :: PowerChain(ts, i, es, Power(ts, i).value.pos) && Power(ts, i).value.e == RightNest(Pow, es)
    decreases |ts| - i
  {
    var r := Power(ts, i).value;
    var t := Term(ts, i).value;
    if t.pos < |ts| && ts[t.pos].Caret? {
      PowerIsRightNest(ts, t.pos + 1);
      var es :| PowerChain(ts, t.pos + 1, es, r.pos) && Power(ts, t.pos + 1).value.e == RightNest(Pow, es);
      assert ([t.e] + es)[1..] == es;
      assert PowerChain(ts, i, [t.e] + es, r.pos);
    } else {
      assert PowerChain(ts, i, [t.e], r.pos);
    }
  }
}
