/**
 * The textual form of expressions and statements (`Display` for Expr in
 * src/types.rs and src/models/expression.rs, for Stmt in
 * src/models/statement.rs). Floating-point numbers are printed by the
 * formatter `num`, a parameter standing for Rust's `{}` on f64.
 */
module Printer {
  import opened Operators
  import opened Ast

  function ExprText(e: Expr, num: real -> string): string
    decreases e
  {
    match e
    case Number(v) => num(v)
    case Int(v) => num(v as real)
    case Float(v) => num(v)
    case Variable(name) => name
    case PrevAnswer => "_"
    case FnCall(f, args) => f + "(" + ArgsText(args, num) + ")"
    case Prefix(op, a) => "(" + PrefixSymbol(op) + ExprText(a, num) + ")"
    case Postfix(op, a) => "(" + ExprText(a, num) + PostfixSymbol(op) + ")"
    case Infix(op, l, r) => "(" + ExprText(l, num) + " " + InfixSymbol(op) + " " + ExprText(r, num) + ")"
  }

  /** The arguments of a call, joined by ", " (empty for no arguments). */
  function ArgsText(args: seq<Expr>, num: real -> string): string
    decreases args
  {
    if |args| == 0 then ""
    else if |args| == 1 then ExprText(args[0], num)
    else ArgsText(args[..|args| - 1], num) + ", " + ExprText(args[|args| - 1], num)
  }

  /** Rust's `{:?}` of a list of names: `["a", "b"]`. */
  function DebugNames(names: seq<string>): string {
    "[" + QuotedNames(names) + "]"
  }

  function QuotedNames(names: seq<string>): string {
    if |names| == 0 then ""
    else if |names| == 1 then "\"" + names[0] + "\""
    else QuotedNames(names[..|names| - 1]) + ", \"" + names[|names| - 1] + "\""
  }

  function StmtText(s: Stmt, num: real -> string): string {
    match s
    case DefVar(name, e) => "let " + name + " := " + ExprText(e, num)
    case DefFun(name, argNames, body) => "let " + name + "(" + DebugNames(argNames) + ") := " + ExprText(body, num)
    case ExprStmt(e) => ExprText(e, num)
  }

  // ---------------------------------------------------------------------
  // Parenthesis balance

  /** Open minus close parentheses in s. */
  function Net(s: string): int {
    if s == [] then 0
    else Net(s[..|s| - 1]) + (if s[|s| - 1] == '(' then 1 else if s[|s| - 1] == ')' then -1 else 0)
  }

  /** Every prefix closes no more parentheses than it opens, and the whole closes all. */
  predicate Balanced(s: string) {
    Net(s) == 0 && forall k :: 0 <= k <= |s| ==> Net(s[..k]) >= 0
  }

  predicate ParenFree(s: string) {
    forall k :: 0 <= k < |s| ==> s[k] != '(' && s[k] != ')'
  }

  /** Every name in e (function and variable names) is free of parentheses. */
  predicate NamesParenFree(e: Expr)
    decreases e
  {
    match e
    case Variable(name) => ParenFree(name)
    case FnCall(f, args) => ParenFree(f) && forall k :: 0 <= k < |args| ==> NamesParenFree(args[k])
    case Prefix(_, a) => NamesParenFree(a)
    case Postfix(_, a) => NamesParenFree(a)
    case Infix(_, l, r) => NamesParenFree(l) && NamesParenFree(r)
    case _ => true
  }

  lemma {:induction false} NetConcat(a: string, b: string)
    ensures Net(a + b) == Net(a) + Net(b)
    decreases |b|
  {
    if b == [] {
      assert a + b == a;
    } else {
      var b' := b[..|b| - 1];
      assert (a + b)[..|a + b| - 1] == a + b';
      NetConcat(a, b');
    }
  }

  lemma {:induction false} ParenFreeBalanced(s: string)
    requires ParenFree(s)
    ensures Balanced(s)
    ensures forall k :: 0 <= k <= |s| ==> Net(s[..k]) == 0
    decreases |s|
  {
    if s != [] {
      var s' := s[..|s| - 1];
      ParenFreeBalanced(s');
      forall k | 0 <= k <= |s| ensures Net(s[..k]) == 0 {
        if k < |s| {
          assert s[..k] == s'[..k];
        } else {
          assert s[..k] == s;
          assert s[..|s| - 1] == s'[..|s'|];
        }
      }
    }
  }

  lemma BalancedConcat(a: string, b: string)
    requires Balanced(a) && Balanced(b)
    ensures Balanced(a + b)
  {
    NetConcat(a, b);
    forall k | 0 <= k <= |a + b| ensures Net((a + b)[..k]) >= 0 {
      if k <= |a| {
        assert (a + b)[..k] == a[..k];
      } else {
        assert (a + b)[..k] == a + b[..k - |a|];
        NetConcat(a, b[..k - |a|]);
      }
    }
  }

  lemma BalancedWrap(a: string)
    requires Balanced(a)
    ensures Balanced("(" + a + ")")
  {
    var w := "(" + a + ")";
    NetConcat("(", a);
    NetConcat("(" + a, ")");
    forall k | 0 <= k <= |w| ensures Net(w[..k]) >= 0 {
      if 1 <= k <= |a| + 1 {
        assert w[..k] == "(" + a[..k - 1];
        NetConcat("(", a[..k - 1]);
      } else if k == |w| {
        assert w[..k] == w;
      }
    }
  }

  lemma Unwrap(x: string)
    ensures var t := "(" + x + ")"; |t| >= 2 && t[0] == '(' && t[|t| - 1] == ')' && t[1..|t| - 1] == x
  {
  }

  /** The shapes the printer builds, each balanced when its parts are. */
  lemma CallShapeBalanced(f: string, args: string)
    requires ParenFree(f) && Balanced(args)
    ensures Balanced(f + "(" + args + ")")
  {
    ParenFreeBalanced(f);
    BalancedWrap(args);
    BalancedConcat(f, "(" + args + ")");
    assert f + "(" + args + ")" == f + ("(" + args + ")");
  }

  lemma PrefixShapeBalanced(sym: string, a: string)
    requires ParenFree(sym) && Balanced(a)
    ensures Balanced("(" + sym + a + ")")
    ensures var t := "(" + sym + a + ")"; |t| >= 2 && t[0] == '(' && t[|t| - 1] == ')' && Balanced(t[1..|t| - 1])
  {
    ParenFreeBalanced(sym);
    BalancedConcat(sym, a);
    BalancedWrap(sym + a);
    assert "(" + sym + a + ")" == "(" + (sym + a) + ")";
    Unwrap(sym + a);
  }

  lemma PostfixShapeBalanced(a: string, sym: string)
    requires ParenFree(sym) && Balanced(a)
    ensures Balanced("(" + a + sym + ")")
    ensures var t := "(" + a + sym + ")"; |t| >= 2 && t[0] == '(' && t[|t| - 1] == ')' && Balanced(t[1..|t| - 1])
  {
    ParenFreeBalanced(sym);
    BalancedConcat(a, sym);
    BalancedWrap(a + sym);
    assert "(" + a + sym + ")" == "(" + (a + sym) + ")";
    Unwrap(a + sym);
  }

  lemma InfixShapeBalanced(l: string, sym: string, r: string)
    requires ParenFree(sym) && Balanced(l) && Balanced(r)
    ensures Balanced("(" + l + " " + sym + " " + r + ")")
    ensures var t := "(" + l + " " + sym + " " + r + ")";
            |t| >= 2 && t[0] == '(' && t[|t| - 1] == ')' && Balanced(t[1..|t| - 1])
  {
    var mid := " " + sym + " ";
    assert ParenFree(mid);
    ParenFreeBalanced(mid);
    BalancedConcat(l, mid);
    BalancedConcat(l + mid, r);
    BalancedWrap(l + mid + r);
    assert l + " " + sym + " " + r == l + mid + r;
    assert "(" + l + " " + sym + " " + r + ")" == "(" + (l + mid + r) + ")";
    Unwrap(l + mid + r);
  }

  lemma ArgsShapeBalanced(init: string, last: string)
    requires Balanced(init) && Balanced(last)
    ensures Balanced(init + ", " + last)
  {
    ParenFreeBalanced(", ");
    BalancedConcat(init, ", ");
    BalancedConcat(init + ", ", last);
  }

  lemma {:induction false} ArgsBalanced(args: seq<Expr>, num: real -> string)
    requires forall v :: ParenFree(num(v))
    requires forall k :: 0 <= k < |args| ==> NamesParenFree(args[k])
    ensures Balanced(ArgsText(args, num))
    decreases args
  {
    if |args| == 0 {
      ParenFreeBalanced("");
    } else if |args| == 1 {
      PrintedParensBalance(args[0], num);
    } else {
      var init := args[..|args| - 1];
      assert forall k :: 0 <= k < |init| ==> init[k] == args[k];
      ArgsBalanced(init, num);
      PrintedParensBalance(args[|args| - 1], num);
      ArgsShapeBalanced(ArgsText(init, num), ExprText(args[|args| - 1], num));
    }
  }

  /** The printed form of an expression has balanced parentheses, provided the
      number formatter and the names contribute none of their own. */
  lemma {:induction false} PrintedParensBalance(e: Expr, num: real -> string)
    requires forall v :: ParenFree(num(v))
    requires NamesParenFree(e)
    ensures Balanced(ExprText(e, num))
    decreases e
  {
    match e
    case Number(v) => ParenFreeBalanced(num(v));
    case Int(v) => ParenFreeBalanced(num(v as real));
    case Float(v) => ParenFreeBalanced(num(v));
    case Variable(name) => ParenFreeBalanced(name);
    case PrevAnswer => ParenFreeBalanced("_");
    case FnCall(f, args) =>
      ArgsBalanced(args, num);
      CallShapeBalanced(f, ArgsText(args, num));
    case Prefix(op, a) =>
      PrintedParensBalance(a, num);
      PrefixShapeBalanced(PrefixSymbol(op), ExprText(a, num));
    case Postfix(op, a) =>
      PrintedParensBalance(a, num);
      PostfixShapeBalanced(ExprText(a, num), PostfixSymbol(op));
    case Infix(op, l, r) =>
      PrintedParensBalance(l, num);
      PrintedParensBalance(r, num);
      InfixShapeBalanced(ExprText(l, num), InfixSymbol(op), ExprText(r, num));
  }

  /** The text of an operator node: one pair of parentheses around balanced text. */
  predicate Wrapped(t: string) {
    |t| >= 2 && t[0] == '(' && t[|t| - 1] == ')' && Balanced(t[1..|t| - 1])
  }

  lemma PrefixWrapped(e: Expr, num: real -> string)
    requires e.Prefix?
    requires forall v :: ParenFree(num(v))
    requires NamesParenFree(e)
    ensures Wrapped(ExprText(e, num))
  {
    PrintedParensBalance(e.arg, num);
    PrefixShapeBalanced(PrefixSymbol(e.prefixOp), ExprText(e.arg, num));
  }

  lemma PostfixWrapped(e: Expr, num: real -> string)
    requires e.Postfix?
    requires forall v :: ParenFree(num(v))
    requires NamesParenFree(e)
    ensures Wrapped(ExprText(e, num))
  {
    PrintedParensBalance(e.arg, num);
    PostfixShapeBalanced(ExprText(e.arg, num), PostfixSymbol(e.postfixOp));
  }

  lemma InfixWrapped(e: Expr, num: real -> string)
    requires e.Infix?
    requires forall v :: ParenFree(num(v))
    requires NamesParenFree(e)
    ensures Wrapped(ExprText(e, num))
  {
    PrintedParensBalance(e.lhs, num);
    PrintedParensBalance(e.rhs, num);
    var sym := InfixSymbol(e.infixOp);
    assert ParenFree(sym);
    InfixShapeBalanced(ExprText(e.lhs, num), sym, ExprText(e.rhs, num));
    assert ExprText(e, num) == "(" + ExprText(e.lhs, num) + " " + sym + " " + ExprText(e.rhs, num) + ")";
  }

  /** Every operator node prints as one pair of parentheses around balanced text,
      so the outer pair matches and encloses exactly that node. */
  lemma OperatorNodeWrapped(e: Expr, num: real -> string)
    requires e.Prefix? || e.Postfix? || e.Infix?
    requires forall v :: ParenFree(num(v))
    requires NamesParenFree(e)
    ensures Wrapped(ExprText(e, num))
  {
    if e.Prefix? {
      PrefixWrapped(e, num);
    } else if e.Postfix? {
      PostfixWrapped(e, num);
    } else {
      InfixWrapped(e, num);
    }
  }

  lemma {:induction false} QuotedNamesParenFree(names: seq<string>)
    requires forall k :: 0 <= k < |names| ==> ParenFree(names[k])
    ensures ParenFree(QuotedNames(names))
    decreases |names|
  {
    if |names| > 1 {
      QuotedNamesParenFree(names[..|names| - 1]);
    }
  }

  /** The names a statement prints, besides those inside its expression. */
  predicate StmtNamesParenFree(s: Stmt) {
    match s
    case DefVar(name, e) => ParenFree(name) && NamesParenFree(e)
    case DefFun(name, argNames, body) =>
      ParenFree(name) && (forall k :: 0 <= k < |argNames| ==> ParenFree(argNames[k])) && NamesParenFree(body)
    case ExprStmt(e) => NamesParenFree(e)
  }

  /** A printed statement has balanced parentheses when its names and numbers contribute none. */
  lemma PrintedStatementBalanced(s: Stmt, num: real -> string)
    requires forall v :: ParenFree(num(v))
    requires StmtNamesParenFree(s)
    ensures Balanced(StmtText(s, num))
  {
    match s
    case DefVar(name, e) =>
      var head := "let " + name + " := ";
      assert ParenFree(head);
      ParenFreeBalanced(head);
      PrintedParensBalance(e, num);
      BalancedConcat(head, ExprText(e, num));
    case DefFun(name, argNames, body) =>
      var head := "let " + name;
      assert ParenFree(head);
      QuotedNamesParenFree(argNames);
      assert ParenFree(DebugNames(argNames));
      ParenFreeBalanced(DebugNames(argNames));
      CallShapeBalanced(head, DebugNames(argNames));
      var tail := " := ";
      ParenFreeBalanced(tail);
      BalancedConcat(head + "(" + DebugNames(argNames) + ")", tail);
      PrintedParensBalance(body, num);
      BalancedConcat(head + "(" + DebugNames(argNames) + ")" + tail, ExprText(body, num));
      assert StmtText(s, num) == head + "(" + DebugNames(argNames) + ")" + tail + ExprText(body, num);
    case ExprStmt(e) =>
      PrintedParensBalance(e, num);
  }
}

