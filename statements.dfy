/**
 * Running one statement (`Stmt::eval`, src/models/statement.rs) against the
 * context: a variable definition evaluates its expression and binds the result
 * in the innermost frame, a function definition installs a user function
 * without evaluating anything, and an expression statement just evaluates.
 * `Run` is the specification; `Execute` performs it on a `Context`.
 */
module Statements {
  import opened Wrappers
  import opened Ast
  import opened Errors
  import F = Functions
  import opened Scopes
  import opened Evaluator

  /** The outcome of a statement and the state it leaves. */
  datatype Outcome<!V> = Outcome(result: Result<V, EvalError>, env: Env<V>)

  function Run<V>(s: Stmt, env: Env<V>, ar: Arith<V>, depth: nat): Outcome<V>
    requires env.frames != []
  {
    match s
    case DefVar(name, e) =>
      (match Eval(e, env, ar, depth)
       case Err(err) => Outcome(Err(err), env)
       case Ok(v) =>
         match Assign(env.frames[0], name, v)
         case None => Outcome(Err(InvalidVariableDefinition(name)), env)
         case Some(frame) => Outcome(Ok(v), env.(frames := [frame] + env.frames[1..])))
    case DefFun(name, argNames, body) =>
      Outcome(Ok(ar.notANumber), env.(functions := env.functions[name := F.NewInternal(argNames, body)]))
    case ExprStmt(e) => Outcome(Eval(e, env, ar, depth), env)
  }

  /** `Stmt::eval` on a context. */
  method Execute<V>(s: Stmt, ctx: Context<V>, ar: Arith<V>, depth: nat) returns (r: Result<V, EvalError>)
    requires ctx.frames != []
    modifies ctx
    ensures r == Run(s, old(ctx.Snapshot()), ar, depth).result
    ensures ctx.Snapshot() == Run(s, old(ctx.Snapshot()), ar, depth).env
  {
    match s {
      case DefVar(name, e) =>
        var v := Evaluate(e, ctx, ar, depth);
        if v.Err? {
          return Err(v.error);
        }
        var bound := ctx.SetVariable(name, v.value);
        if bound.None? {
          return Err(InvalidVariableDefinition(name));
        }
        r := Ok(bound.value);
      case DefFun(name, argNames, body) =>
        ctx.SetFunction(name, argNames, body);
        r := Ok(ar.notANumber);
      case ExprStmt(e) =>
        r := Evaluate(e, ctx, ar, depth);
    }
  }

  // ---- properties ----

  /** A failing definition expression is reported as is, and nothing is bound. */
  lemma DefVarErrorBindsNothing<V>(name: string, e: Expr, env: Env<V>, ar: Arith<V>, depth: nat)
    requires env.frames != [] && Eval(e, env, ar, depth).Err?
    ensures Run(DefVar(name, e), env, ar, depth) == Outcome(Eval(e, env, ar, depth), env)
  {
  }

  /** Redefining a builtin of the innermost frame fails with InvalidVariableDefinition and changes nothing; otherwise a successful expression always binds. */
  lemma DefVarProtected<V>(name: string, e: Expr, env: Env<V>, ar: Arith<V>, depth: nat)
    requires env.frames != [] && Eval(e, env, ar, depth).Ok?
    ensures Protected(env.frames[0], name) <==> Run(DefVar(name, e), env, ar, depth).result == Err(InvalidVariableDefinition(name))
    ensures Protected(env.frames[0], name) ==> Run(DefVar(name, e), env, ar, depth).env == env
  {
  }

  /** After a successful definition the name evaluates to the assigned value, and every other name to what it did before. */
  lemma DefVarThenRead<V>(name: string, e: Expr, env: Env<V>, ar: Arith<V>, depth: nat, other: string)
    requires env.frames != [] && Run(DefVar(name, e), env, ar, depth).result.Ok?
    ensures Run(DefVar(name, e), env, ar, depth).result == Eval(e, env, ar, depth)
    ensures Eval(Variable(name), Run(DefVar(name, e), env, ar, depth).env, ar, depth) == Run(DefVar(name, e), env, ar, depth).result
    ensures other != name ==> Eval(Variable(other), Run(DefVar(name, e), env, ar, depth).env, ar, depth) == Eval(Variable(other), env, ar, depth)
    ensures Run(DefVar(name, e), env, ar, depth).env.functions == env.functions
    ensures |Run(DefVar(name, e), env, ar, depth).env.frames| == |env.frames|
    ensures Run(DefVar(name, e), env, ar, depth).env.frames[1..] == env.frames[1..]
  {
    var v := Eval(e, env, ar, depth).value;
    assert [env.frames[0]] + env.frames[1..] == env.frames;
    AssignThenLookup(env.frames[0], env.frames[1..], name, v, other);
  }

  /** A function definition always succeeds with the non-number marker, installs exactly that entry and touches no variable. */
  lemma DefFunInstalls<V>(name: string, argNames: seq<string>, body: Expr, env: Env<V>, ar: Arith<V>, depth: nat, other: string)
    requires env.frames != []
    ensures Run(DefFun(name, argNames, body), env, ar, depth).result == Ok(ar.notANumber)
    ensures var after := Run(DefFun(name, argNames, body), env, ar, depth).env;
      name in after.functions && after.functions[name].Internal? &&
      after.functions[name].arity == |argNames| && after.functions[name].argNames == argNames && after.functions[name].body == body &&
      (other != name ==> (other in after.functions <==> other in env.functions)) &&
      (other != name && other in env.functions ==> after.functions[other] == env.functions[other]) &&
      after.frames == env.frames && after.previous == env.previous
  {
  }

  /** Calling a function right after defining it evaluates its body with the parameters bound to the arguments. */
  lemma DefinedFunctionCall<V>(name: string, argNames: seq<string>, body: Expr, args: seq<Expr>, env: Env<V>, ar: Arith<V>, depth: nat)
    requires env.frames != [] && depth > 0 && |args| == |argNames|
    requires var after := Run(DefFun(name, argNames, body), env, ar, depth).env;
      forall k :: 0 <= k < |args| ==> Eval(args[k], after, ar, depth).Ok?
    ensures var after := Run(DefFun(name, argNames, body), env, ar, depth).env;
      EvalArgs(args, after, ar, depth).Ok? &&
      Eval(FnCall(name, args), after, ar, depth) ==
        Eval(body, after.(frames := [Bind(argNames, EvalArgs(args, after, ar, depth).value)] + after.frames), ar, depth - 1)
  {
    var after := Run(DefFun(name, argNames, body), env, ar, depth).env;
    EvalArgsAllOk(args, after, ar, depth);
  }

  /** An expression statement yields its expression's result and leaves the state alone. */
  lemma ExprStmtPure<V>(e: Expr, env: Env<V>, ar: Arith<V>, depth: nat)
    requires env.frames != []
    ensures Run(ExprStmt(e), env, ar, depth) == Outcome(Eval(e, env, ar, depth), env)
  {
  }
}
