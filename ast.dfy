/**
 * Syntax trees. `Expr` is the union of the expression trees of src/types.rs
 * (Number, FnCall and the operator nodes) and of src/models/expression.rs
 * (which adds Variable and, through the newer parser, Int, Float and
 * PrevAnswer); `Stmt` is src/models/statement.rs.
 */
module Ast {
  import opened Operators

  datatype Expr =
    | Number(value: real)
    | Int(intValue: int)
    | Float(floatValue: real)
    | Variable(name: string)
    | PrevAnswer
    | FnCall(fname: string, args: seq<Expr>)
    | Prefix(prefixOp: PrefixOp, arg: Expr)
    | Postfix(postfixOp: PostfixOp, arg: Expr)
    | Infix(infixOp: InfixOp, lhs: Expr, rhs: Expr)

  datatype Stmt =
    | DefVar(name: string, expr: Expr)
    | DefFun(name: string, argNames: seq<string>, body: Expr)
    | ExprStmt(expr: Expr)

  /**
   * `acc op₀ e₀ op₁ e₁ …` nested to the left, `((acc op₀ e₀) op₁ e₁) …`, as a
   * `foldl` over operator-operand pairs builds it: the last pair is outermost.
   */
  function LeftNest(acc: Expr, ops: seq<InfixOp>, es: seq<Expr>): Expr
    requires |ops| == |es|
    decreases |es|
  {
    if es == [] then acc else LeftNest(Infix(ops[0], acc, es[0]), ops[1..], es[1..])
  }

  /** The last operator-operand pair of a left fold is its outermost node. */
  lemma {:induction false} LeftNestLast(acc: Expr, ops: seq<InfixOp>, es: seq<Expr>)
    requires |ops| == |es| && es != []
    ensures LeftNest(acc, ops, es) == Infix(ops[|ops| - 1], LeftNest(acc, ops[..|ops| - 1], es[..|es| - 1]), es[|es| - 1])
    decreases |es|
  {
    if |es| > 1 {
      var acc' := Infix(ops[0], acc, es[0]);
      LeftNestLast(acc', ops[1..], es[1..]);
      assert ops[..|ops| - 1][1..] == ops[1..][..|ops| - 2] && es[..|es| - 1][1..] == es[1..][..|es| - 2];
    }
  }

  /**
   * `e₀ op e₁ op … op eₙ` nested to the right, `e₀ op (e₁ op (… op eₙ))`, as a
   * `foldr` builds it: the first operand is the outermost left operand.
   */
  function RightNest(op: InfixOp, es: seq<Expr>): (r: Expr)
    requires es != []
    ensures |es| == 1 ==> r == es[0]
    ensures |es| > 1 ==> r.Infix? && r.infixOp == op && r.lhs == es[0]
    decreases |es|
  {
    if |es| == 1 then es[0] else Infix(op, es[0], RightNest(op, es[1..]))
  }

  /** Folding one more pair first is folding it onto the accumulator. */
  lemma LeftNestCons(acc: Expr, op: InfixOp, e: Expr, ops: seq<InfixOp>, es: seq<Expr>)
    requires |ops| == |es|
    ensures LeftNest(acc, [op] + ops, [e] + es) == LeftNest(Infix(op, acc, e), ops, es)
  {
    assert ([op] + ops)[1..] == ops && ([e] + es)[1..] == es;
  }

  /** `n` copies of Mul, the operator of every implicit product. */
  function Muls(n: nat): (ops: seq<InfixOp>)
    ensures |ops| == n && forall k :: 0 <= k < n ==> ops[k] == Mul
  {
    seq(n, _ => Mul)
  }
}
