/**
 * Expression evaluation (src/models/expression.rs) and function calls
 * (src/models/function.rs), over an abstract number type V whose operations
 * are supplied by an `Arith` record. `Eval`, `EvalArgs` and `Call` are the
 * specification; the methods `Evaluate` and `CallFunction` run on a `Context`
 * the way the program does (a loop collecting call arguments; a pushed frame
 * filled by a loop of `set_variable` calls) and are proved to compute the same
 * result and to leave the context as they found it.
 *
 * User functions can recurse without bound in the program; here every call of
 * a user function spends one unit of `depth`, and at zero the call fails with
 * RecursionLimit.
 */
module Evaluator {
  import opened Wrappers
  import opened Operators
  import opened Ast
  import opened Errors
  import opened Checked
  import F = Functions
  import opened Scopes

  /** What rounding a number can give: an integer, or one of the non-finite values. */
  datatype Rounded = Whole(n: int) | NotANumber | PlusInfinity | MinusInfinity

  /** The number type's operations, opaque to the model (f64 arithmetic in the program). */
  datatype Arith<!V> = Arith(
    literal: real -> V,
    fromInteger: int -> V,
    add: (V, V) -> V,
    sub: (V, V) -> V,
    mul: (V, V) -> V,
    div: (V, V) -> V,
    remEuclid: (V, V) -> V,
    pow: (V, V) -> V,
    neg: V -> V,
    round: V -> Rounded,
    notANumber: V)

  /** The value of an infix operator applied to two evaluated operands. */
  function Apply<V>(ar: Arith<V>, op: InfixOp, a: V, b: V): V {
    match op
    case Add => ar.add(a, b)
    case Sub => ar.sub(a, b)
    case Mul => ar.mul(a, b)
    case Div => ar.div(a, b)
    case Rem => ar.remEuclid(a, b)
    case Pow => ar.pow(a, b)
  }

  /** `n as u128`: saturating, with NaN giving 0. */
  function CastU128(r: Rounded): (n: nat)
    ensures n <= U128Max
  {
    match r
    case Whole(n) => if n < 0 then 0 else if n > U128Max then U128Max else n
    case NotANumber => 0
    case PlusInfinity => U128Max
    case MinusInfinity => 0
  }

  /** `factorial`: round, refuse a negative number, then the checked u128 product. */
  function Factorial<V>(ar: Arith<V>, x: V): Result<V, EvalError> {
    var n := ar.round(x);
    if (n.Whole? && n.n < 0) || n.MinusInfinity? then Err(MathDomain)
    else
      match CheckedFactorial(CastU128(n), U128Max)
      case Some(k) => Ok(ar.fromInteger(k))
      case None => Err(Overflow)
  }

  /** The u128 accumulator holds 34! but not 35!; negative input is a domain error and NaN counts as 0. */
  lemma FactorialU128<V>(ar: Arith<V>, x: V)
    ensures ar.round(x).Whole? && 0 <= ar.round(x).n <= 34 ==> Factorial(ar, x) == Ok(ar.fromInteger(Fact(ar.round(x).n)))
    ensures (ar.round(x).Whole? && ar.round(x).n >= 35) || ar.round(x).PlusInfinity? ==> Factorial(ar, x) == Err(Overflow)
    ensures (ar.round(x).Whole? && ar.round(x).n < 0) || ar.round(x).MinusInfinity? ==> Factorial(ar, x) == Err(MathDomain)
    ensures ar.round(x).NotANumber? ==> Factorial(ar, x) == Ok(ar.fromInteger(1))
  {
    U128Threshold();
    CheckedFactorialThreshold(CastU128(ar.round(x)), U128Max, 34);
  }

  /** A size that shrinks from a node to its children, used to show evaluation terminates. */
  function Size(e: Expr): (n: nat)
    ensures n >= 1
    decreases e
  {
    match e
    case FnCall(_, args) => 1 + SizeList(args)
    case Prefix(_, a) => 1 + Size(a)
    case Postfix(_, a) => 1 + Size(a)
    case Infix(_, l, r) => 1 + Size(l) + Size(r)
    case _ => 1
  }

  function SizeList(args: seq<Expr>): nat
    decreases args
  {
    if args == [] then 0 else SizeList(args[..|args| - 1]) + Size(args[|args| - 1])
  }

  lemma {:induction false} SizeElement(args: seq<Expr>, k: nat)
    requires k < |args|
    ensures Size(args[k]) <= SizeList(args)
    decreases |args|
  {
    if k < |args| - 1 {
      SizeElement(args[..|args| - 1], k);
    }
  }

  /** `Expr::eval`. */
  function Eval<V>(e: Expr, env: Env<V>, ar: Arith<V>, depth: nat): Result<V, EvalError>
    decreases depth, Size(e), 1
  {
    match e
    case Number(x) => Ok(ar.literal(x))
    case Int(n) => Ok(ar.fromInteger(n))
    case Float(x) => Ok(ar.literal(x))
    case Variable(name) =>
      (match Lookup(env.frames, name)
       case None => Err(VariableNotFound(name))
       case Some(v) => Ok(Get(v)))
    case PrevAnswer =>
      (match env.previous
       case None => Err(NoHistory)
       case Some(v) => Ok(v))
    case Infix(op, l, r) =>
      (match Eval(l, env, ar, depth)
       case Err(err) => Err(err)
       case Ok(a) =>
         match Eval(r, env, ar, depth)
         case Err(err) => Err(err)
         case Ok(b) => Ok(Apply(ar, op, a, b)))
    case Prefix(Neg, a) =>
      (match Eval(a, env, ar, depth)
       case Err(err) => Err(err)
       case Ok(v) => Ok(ar.neg(v)))
    case Postfix(Fac, a) =>
      (match Eval(a, env, ar, depth)
       case Err(err) => Err(err)
       case Ok(v) => Factorial(ar, v))
    case FnCall(f, args) =>
      match EvalArgs(args, env, ar, depth)
      case Err(err) => Err(err)
      case Ok(vals) => if f in env.functions then Call(env.functions[f], vals, env, ar, depth) else Err(FunctionNotFound(f))
  }

  /** The call arguments, left to right, stopping at the first error. */
  function EvalArgs<V>(args: seq<Expr>, env: Env<V>, ar: Arith<V>, depth: nat): Result<seq<V>, EvalError>
    decreases depth, SizeList(args), 2
  {
    if args == [] then Ok([])
    else
      match EvalArgs(args[..|args| - 1], env, ar, depth)
      case Err(err) => Err(err)
      case Ok(vals) =>
        SizeElement(args, |args| - 1);
        match Eval(args[|args| - 1], env, ar, depth)
        case Err(err) => Err(err)
        case Ok(v) => Ok(vals + [v])
  }

  function Min(a: nat, b: nat): nat {
    if a < b then a else b
  }

  /** Every entry of the frame is Internal, so `set_variable` never refuses a name in it. */
  predicate AllInternal<V>(frame: Frame<V>) {
    forall x :: x in frame ==> frame[x].Internal?
  }

  /** The frame of a call after binding the first k parameters, each to the argument in the same position. */
  function BindUpTo<V>(names: seq<string>, vals: seq<V>, k: nat): (frame: Frame<V>)
    requires k <= |names| && k <= |vals|
    ensures AllInternal(frame)
  {
    if k == 0 then map[] else BindUpTo(names, vals, k - 1)[names[k - 1] := Internal(vals[k - 1])]
  }

  /** Parameter j is the last occurrence of its name among the first k parameters. */
  predicate LastOccurrence(names: seq<string>, k: nat, j: nat)
    requires j < k <= |names|
  {
    forall m :: j < m < k ==> names[m] != names[j]
  }

  /** The frame of a call: as many parameter/argument pairs as both lists have. */
  function Bind<V>(names: seq<string>, vals: seq<V>): Frame<V> {
    BindUpTo(names, vals, Min(|names|, |vals|))
  }

  /** `Function::call`. */
  function Call<V>(f: F.Function<V>, vals: seq<V>, env: Env<V>, ar: Arith<V>, depth: nat): Result<V, EvalError>
    decreases depth, 0, 0
  {
    if |vals| != f.arity then Err(InvalidNumberOfArguments(f.arity, |vals|))
    else
      match f
      case External(_, native) => Ok(native(vals))
      case Internal(_, names, body) =>
        if depth == 0 then Err(RecursionLimit)
        else Eval(body, env.(frames := [Bind(names, vals)] + env.frames), ar, depth - 1)
  }

  // ---- the program's evaluation, on a Context ----

  /** `Expr::eval` on a context: the specified result, and the context left as it was. */
  method Evaluate<V>(e: Expr, ctx: Context<V>, ar: Arith<V>, depth: nat) returns (r: Result<V, EvalError>)
    requires ctx.frames != []
    modifies ctx
    ensures r == Eval(e, old(ctx.Snapshot()), ar, depth)
    ensures ctx.Snapshot() == old(ctx.Snapshot())
    decreases depth, Size(e), 1
  {
    match e {
      case Number(x) =>
        r := Ok(ar.literal(x));
      case Int(n) =>
        r := Ok(ar.fromInteger(n));
      case Float(x) =>
        r := Ok(ar.literal(x));
      case Variable(name) =>
        var v := Lookup(ctx.frames, name);
        if v.None? {
          r := Err(VariableNotFound(name));
        } else {
          r := Ok(Get(v.value));
        }
      case PrevAnswer =>
        var p := ctx.GetPrevAnswer();
        if p.None? {
          r := Err(NoHistory);
        } else {
          r := Ok(p.value);
        }
      case Infix(op, lhs, rhs) =>
        var a := Evaluate(lhs, ctx, ar, depth);
        if a.Err? {
          return Err(a.error);
        }
        var b := Evaluate(rhs, ctx, ar, depth);
        if b.Err? {
          return Err(b.error);
        }
        r := Ok(Apply(ar, op, a.value, b.value));
      case Prefix(Neg, arg) =>
        var a := Evaluate(arg, ctx, ar, depth);
        if a.Err? {
          return Err(a.error);
        }
        r := Ok(ar.neg(a.value));
      case Postfix(Fac, arg) =>
        var a := Evaluate(arg, ctx, ar, depth);
        if a.Err? {
          return Err(a.error);
        }
        r := Factorial(ar, a.value);
      case FnCall(f, args) =>
        ghost var env := ctx.Snapshot();
        var vals: seq<V> := [];
        for k := 0 to |args|
          invariant ctx.Snapshot() == env
          invariant EvalArgs(args[..k], env, ar, depth) == Ok(vals)
        {
          SizeElement(args, k);
          var v := Evaluate(args[k], ctx, ar, depth);
          assert args[..k + 1][..k] == args[..k];
          if v.Err? {
            EvalArgsPrefixError(args, k + 1, env, ar, depth);
            return Err(v.error);
          }
          vals := vals + [v.value];
        }
        assert args[..|args|] == args;
        var g := ctx.GetFunction(f);
        if g.None? {
          return Err(FunctionNotFound(f));
        }
        r := CallFunction(g.value, vals, ctx, ar, depth);
    }
  }

  /** `Function::call` on a context: push a frame, bind the parameters one by one, evaluate the body, pop the frame. */
  method CallFunction<V>(f: F.Function<V>, vals: seq<V>, ctx: Context<V>, ar: Arith<V>, depth: nat) returns (r: Result<V, EvalError>)
    requires ctx.frames != []
    modifies ctx
    ensures r == Call(f, vals, old(ctx.Snapshot()), ar, depth)
    ensures ctx.Snapshot() == old(ctx.Snapshot())
    decreases depth, 0, 0
  {
    if |vals| != f.arity {
      return Err(InvalidNumberOfArguments(f.arity, |vals|));
    }
    if f.External? {
      return Ok(f.native(vals));
    }
    if depth == 0 {
      return Err(RecursionLimit);
    }
    ctx.Extend();
    var n := Min(|f.argNames|, |vals|);
    for k := 0 to n
      invariant ctx.frames == [BindUpTo(f.argNames, vals, k)] + old(ctx.frames)
      invariant ctx.functions == old(ctx.functions) && ctx.previousAnswer == old(ctx.previousAnswer)
    {
      var _ := ctx.SetVariable(f.argNames[k], vals[k]);
    }
    r := Evaluate(f.body, ctx, ar, depth - 1);
    ctx.Detach();
  }

  // ---- properties ----

  /** Once a prefix of the arguments fails, the whole list fails with the same error. */
  lemma {:induction false} EvalArgsPrefixError<V>(args: seq<Expr>, k: nat, env: Env<V>, ar: Arith<V>, depth: nat)
    requires k <= |args| && EvalArgs(args[..k], env, ar, depth).Err?
    ensures EvalArgs(args, env, ar, depth) == EvalArgs(args[..k], env, ar, depth)
    decreases |args|
  {
    if k < |args| {
      var init := args[..|args| - 1];
      assert init[..k] == args[..k];
      EvalArgsPrefixError(init, k, env, ar, depth);
    } else {
      assert args[..k] == args;
    }
  }

  /** The arguments all evaluate exactly when each one does, and then the values are theirs, in order. */
  lemma {:induction false} EvalArgsAllOk<V>(args: seq<Expr>, env: Env<V>, ar: Arith<V>, depth: nat)
    ensures EvalArgs(args, env, ar, depth).Ok? <==> forall k :: 0 <= k < |args| ==> Eval(args[k], env, ar, depth).Ok?
    ensures EvalArgs(args, env, ar, depth).Ok? ==>
      |EvalArgs(args, env, ar, depth).value| == |args| &&
      forall k :: 0 <= k < |args| ==> EvalArgs(args, env, ar, depth).value[k] == Eval(args[k], env, ar, depth).value
    decreases |args|
  {
    if args != [] {
      var init := args[..|args| - 1];
      EvalArgsAllOk(init, env, ar, depth);
      assert forall k :: 0 <= k < |init| ==> init[k] == args[k];
    }
  }

  /** When some argument fails, the error reported is the first failing argument's. */
  lemma {:induction false} EvalArgsFirstError<V>(args: seq<Expr>, k: nat, env: Env<V>, ar: Arith<V>, depth: nat)
    requires k < |args| && Eval(args[k], env, ar, depth).Err?
    requires forall j :: 0 <= j < k ==> Eval(args[j], env, ar, depth).Ok?
    ensures EvalArgs(args, env, ar, depth) == Err(Eval(args[k], env, ar, depth).error)
  {
    var pre := args[..k + 1];
    assert pre[..k] == args[..k];
    EvalArgsAllOk(args[..k], env, ar, depth);
    assert forall j :: 0 <= j < k ==> args[..k][j] == args[j];
    EvalArgsPrefixError(args, k + 1, env, ar, depth);
  }

  /** An infix expression evaluates its left operand first: a left error wins, then a right error, else the operator applies. */
  lemma InfixOrder<V>(op: InfixOp, lhs: Expr, rhs: Expr, env: Env<V>, ar: Arith<V>, depth: nat)
    ensures Eval(lhs, env, ar, depth).Err? ==> Eval(Infix(op, lhs, rhs), env, ar, depth) == Eval(lhs, env, ar, depth)
    ensures Eval(lhs, env, ar, depth).Ok? && Eval(rhs, env, ar, depth).Err? ==> Eval(Infix(op, lhs, rhs), env, ar, depth) == Eval(rhs, env, ar, depth)
    ensures Eval(lhs, env, ar, depth).Ok? && Eval(rhs, env, ar, depth).Ok? ==>
      Eval(Infix(op, lhs, rhs), env, ar, depth) == Ok(Apply(ar, op, Eval(lhs, env, ar, depth).value, Eval(rhs, env, ar, depth).value))
  {
  }

  /** An unknown function is reported only once every argument has evaluated; an argument's error comes first. */
  lemma CallAfterArguments<V>(f: string, args: seq<Expr>, env: Env<V>, ar: Arith<V>, depth: nat)
    ensures f !in env.functions && (forall k :: 0 <= k < |args| ==> Eval(args[k], env, ar, depth).Ok?) ==>
      Eval(FnCall(f, args), env, ar, depth) == Err(FunctionNotFound(f))
    ensures (exists k :: 0 <= k < |args| && Eval(args[k], env, ar, depth).Err?) ==>
      EvalArgs(args, env, ar, depth).Err? &&
      Eval(FnCall(f, args), env, ar, depth) == Err(EvalArgs(args, env, ar, depth).error)
  {
    EvalArgsAllOk(args, env, ar, depth);
  }

  /** A variable names the value in the innermost frame that binds it, and is an error when no frame does. */
  lemma VariableResolution<V>(name: string, env: Env<V>, ar: Arith<V>, depth: nat, k: nat)
    ensures (forall j :: 0 <= j < |env.frames| ==> name !in env.frames[j]) <==> Eval(Variable(name), env, ar, depth) == Err(VariableNotFound(name))
    ensures k < |env.frames| && name in env.frames[k] && (forall j :: 0 <= j < k ==> name !in env.frames[j]) ==>
      Eval(Variable(name), env, ar, depth) == Ok(Get(env.frames[k][name]))
  {
    LookupAbsent(env.frames, name);
    if k < |env.frames| && name in env.frames[k] && (forall j :: 0 <= j < k ==> name !in env.frames[j]) {
      LookupFirst(env.frames, name, k);
    }
  }

  /** `_` is the previous answer, and an error before there is one. */
  lemma PreviousAnswer<V>(env: Env<V>, ar: Arith<V>, depth: nat)
    ensures env.previous.None? <==> Eval(PrevAnswer, env, ar, depth) == Err(NoHistory)
    ensures env.previous.Some? ==> Eval(PrevAnswer, env, ar, depth) == Ok(env.previous.value)
  {
  }

  /** An arity error always reports two different counts. */
  predicate HonestArity<T>(r: Result<T, EvalError>) {
    r.Err? && r.error.InvalidNumberOfArguments? ==> r.error.expectedCount != r.error.foundCount
  }

  lemma {:induction false} EvalHonestArity<V>(e: Expr, env: Env<V>, ar: Arith<V>, depth: nat)
    ensures HonestArity(Eval(e, env, ar, depth))
    decreases depth, Size(e), 1
  {
    match e
    case Infix(_, l, r) =>
      EvalHonestArity(l, env, ar, depth);
      EvalHonestArity(r, env, ar, depth);
    case Prefix(_, a) =>
      EvalHonestArity(a, env, ar, depth);
    case Postfix(_, a) =>
      EvalHonestArity(a, env, ar, depth);
    case FnCall(f, args) =>
      EvalArgsHonestArity(args, env, ar, depth);
      var vals := EvalArgs(args, env, ar, depth);
      if vals.Ok? && f in env.functions {
        CallHonestArity(env.functions[f], vals.value, env, ar, depth);
      }
    case _ =>
  }

  lemma {:induction false} EvalArgsHonestArity<V>(args: seq<Expr>, env: Env<V>, ar: Arith<V>, depth: nat)
    ensures HonestArity(EvalArgs(args, env, ar, depth))
    decreases depth, SizeList(args), 2
  {
    if args != [] {
      EvalArgsHonestArity(args[..|args| - 1], env, ar, depth);
      SizeElement(args, |args| - 1);
      EvalHonestArity(args[|args| - 1], env, ar, depth);
    }
  }

  lemma {:induction false} CallHonestArity<V>(f: F.Function<V>, vals: seq<V>, env: Env<V>, ar: Arith<V>, depth: nat)
    ensures HonestArity(Call(f, vals, env, ar, depth))
    decreases depth, 0, 0
  {
    if |vals| == f.arity && f.Internal? && depth > 0 {
      EvalHonestArity(f.body, env.(frames := [Bind(f.argNames, vals)] + env.frames), ar, depth - 1);
    }
  }

  /** A call fails with its own arity error exactly when the argument count differs from the arity. */
  lemma ArityMismatch<V>(f: F.Function<V>, vals: seq<V>, env: Env<V>, ar: Arith<V>, depth: nat)
    ensures |vals| != f.arity <==> Call(f, vals, env, ar, depth) == Err(InvalidNumberOfArguments(f.arity, |vals|))
  {
    CallHonestArity(f, vals, env, ar, depth);
  }

  /** A native function with the right number of arguments is applied to them and cannot fail. */
  lemma ExternalCall<V>(f: F.Function<V>, vals: seq<V>, env: Env<V>, ar: Arith<V>, depth: nat)
    requires f.External? && |vals| == f.arity
    ensures Call(f, vals, env, ar, depth) == Ok(f.native(vals))
  {
  }

  /** A user function's body sees a fresh innermost frame with its parameters over the caller's chain. */
  lemma InternalCall<V>(f: F.Function<V>, vals: seq<V>, env: Env<V>, ar: Arith<V>, depth: nat, name: string)
    requires f.Internal? && |vals| == f.arity && depth > 0
    ensures Call(f, vals, env, ar, depth) == Eval(f.body, env.(frames := [Bind(f.argNames, vals)] + env.frames), ar, depth - 1)
    ensures name !in Bind(f.argNames, vals) ==>
      Eval(Variable(name), env.(frames := [Bind(f.argNames, vals)] + env.frames), ar, depth - 1) == Eval(Variable(name), env, ar, depth)
  {
  }

  /** A name is bound in a call's frame exactly when it is one of the parameters that received an argument. */
  lemma {:induction false} BindDomain<V>(names: seq<string>, vals: seq<V>, k: nat, x: string)
    requires k <= |names| && k <= |vals|
    ensures x in BindUpTo(names, vals, k) <==> exists j :: 0 <= j < k && names[j] == x
  {
    if k > 0 {
      BindDomain(names, vals, k - 1, x);
    }
  }

  /** A parameter is bound to the argument of its last occurrence among the bound parameters. */
  lemma {:induction false} BindLastWins<V>(names: seq<string>, vals: seq<V>, k: nat, j: nat)
    requires j < k <= |names| && k <= |vals|
    requires forall m :: j < m < k ==> names[m] != names[j]
    ensures names[j] in BindUpTo(names, vals, k) && BindUpTo(names, vals, k)[names[j]] == Internal(vals[j])
  {
    if j < k - 1 {
      BindLastWins(names, vals, k - 1, j);
    }
  }

  /**
   * A call's frame binds a name exactly when it is one of the parameters that got an argument,
   * to the argument of that parameter's last occurrence, and every binding is Internal.
   */
  lemma BindFrame<V>(names: seq<string>, vals: seq<V>)
    ensures AllInternal(Bind(names, vals))
    ensures forall x :: x in Bind(names, vals) <==> exists j :: 0 <= j < Min(|names|, |vals|) && names[j] == x
    ensures forall j :: 0 <= j < Min(|names|, |vals|) && LastOccurrence(names, Min(|names|, |vals|), j) ==>
      names[j] in Bind(names, vals) && Bind(names, vals)[names[j]] == Internal(vals[j])
  {
    var k := Min(|names|, |vals|);
    forall x ensures x in Bind(names, vals) <==> exists j :: 0 <= j < k && names[j] == x {
      BindDomain(names, vals, k, x);
    }
    forall j | 0 <= j < k && LastOccurrence(names, k, j)
      ensures names[j] in Bind(names, vals) && Bind(names, vals)[names[j]] == Internal(vals[j])
    {
      BindLastWins(names, vals, k, j);
    }
  }
}
