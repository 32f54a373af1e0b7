/**
 * The older, single-frame context of src/context.rs: one function table and
 * one variable map. A new context is seeded with the builtin functions (the
 * nine trigonometric ones chosen by the angle unit, then seventeen more) and
 * the protected constants e, pi and tau. The native bodies and the constants'
 * values are floating-point code, supplied by a `Library`.
 */
module FlatContext {
  import opened Wrappers
  import opened Ast
  import opened Errors
  import F = Functions
  import opened Scopes
  import Evaluator

  /** `AngleUnit` (src/args.rs): how trigonometric functions read and return angles. */
  datatype AngleUnit = Radian | Degree

  /** Native bodies of the builtins, and the values of the builtin constants. */
  datatype Library<!V> = Library(
    trig: (AngleUnit, string) -> (seq<V> -> V),
    native: string -> (seq<V> -> V),
    e: V,
    pi: V,
    tau: V)

  /** The trigonometric builtins, all unary; their bodies depend on the angle unit. */
  const TrigNames: seq<string> := ["sin", "cos", "tan", "sec", "csc", "cot", "asin", "acos", "atan"]

  /** The other builtins with their arities, in the order they are inserted. */
  const OtherBuiltins: seq<(string, nat)> := [
    ("sinh", 1), ("cosh", 1), ("tanh", 1), ("floor", 1), ("ceil", 1), ("round", 1),
    ("abs", 1), ("sqrt", 1), ("exp", 1), ("exp2", 1), ("ln", 1), ("log2", 1),
    ("log10", 1), ("rad", 1), ("deg", 1), ("log", 2), ("nroot", 2)]

  /** The trigonometric builtins: one native, unary entry per name. */
  function TrigTable<V>(angle: AngleUnit, lib: Library<V>): (r: map<string, F.Function<V>>)
    ensures forall name :: name in r <==> name in TrigNames
    ensures forall name :: name in r ==> r[name].External? && r[name].arity == 1
  {
    map name | name in TrigNames :: F.External(1, lib.trig(angle, name))
  }

  /** The table after inserting the given builtins one after the other. */
  function InsertAll<V>(table: map<string, F.Function<V>>, entries: seq<(string, nat)>, lib: Library<V>): map<string, F.Function<V>> {
    if entries == [] then table
    else
      var last := entries[|entries| - 1];
      InsertAll(table, entries[..|entries| - 1], lib)[last.0 := F.External(last.1, lib.native(last.0))]
  }

  /** The function table of a new context. */
  function SeededFunctions<V>(angle: AngleUnit, lib: Library<V>): map<string, F.Function<V>> {
    InsertAll(TrigTable(angle, lib), OtherBuiltins, lib)
  }

  /** The variables of a new context. */
  function SeededVariables<V>(lib: Library<V>): (r: Frame<V>)
    ensures r.Keys == {"e", "pi", "tau"}
    ensures forall x :: x in r ==> r[x].External?
  {
    map["e" := External(lib.e), "pi" := External(lib.pi), "tau" := External(lib.tau)]
  }

  class Context<V> {
    var functions: map<string, F.Function<V>>
    var variables: Frame<V>

    /** `Context::new`. */
    constructor (angle: AngleUnit, lib: Library<V>)
      ensures functions == SeededFunctions(angle, lib)
      ensures variables == SeededVariables(lib)
    {
      var table := TrigTable(angle, lib);
      for k := 0 to |OtherBuiltins|
        invariant table == InsertAll(TrigTable(angle, lib), OtherBuiltins[..k], lib)
      {
        var (name, arity) := OtherBuiltins[k];
        assert OtherBuiltins[..k + 1][..k] == OtherBuiltins[..k];
        table := table[name := F.External(arity, lib.native(name))];
      }
      assert OtherBuiltins[..|OtherBuiltins|] == OtherBuiltins;
      functions := table;
      variables := SeededVariables(lib);
    }

    /** `get_function`. */
    function GetFunction(name: string): (r: Option<F.Function<V>>)
      reads this
      ensures r.Some? <==> name in functions
      ensures r.Some? ==> r.value == functions[name]
    {
      if name in functions then Some(functions[name]) else None
    }

    /** `set_function`: always succeeds, replacing any entry of that name, builtins included. */
    method SetFunction(name: string, argNames: seq<string>, body: Expr) returns (r: Option<()>)
      modifies this
      ensures r == Some(())
      ensures functions == old(functions)[name := F.NewInternal(argNames, body)]
      ensures variables == old(variables)
    {
      functions := functions[name := F.NewInternal(argNames, body)];
      r := Some(());
    }

    /** `get_variable`. */
    function GetVariable(name: string): (r: Option<Variable<V>>)
      reads this
      ensures r.Some? <==> name in variables
      ensures r.Some? ==> r.value == variables[name]
    {
      if name in variables then Some(variables[name]) else None
    }

    /** `set_variable`: refuse a builtin constant, else bind the name as Internal. */
    method SetVariable(name: string, n: V) returns (r: Option<V>)
      modifies this
      ensures Protected(old(variables), name) ==> r == None && variables == old(variables)
      ensures !Protected(old(variables), name) ==> r == Some(n) && variables == old(variables)[name := Internal(n)]
      ensures functions == old(functions)
    {
      match Assign(variables, name, n)
      case None =>
        r := None;
      case Some(frame) =>
        variables := frame;
        r := Some(n);
    }
  }

  /** `Function::call` of the flat context; a user function is not callable there. */
  function CallBuiltin<V>(f: F.Function<V>, args: seq<V>): (r: Result<V, EvalError>)
    requires f.External?
    ensures r.Err? <==> |args| != f.arity
    ensures r.Err? ==> r.error == InvalidNumberOfArguments(f.arity, |args|)
    ensures r.Ok? ==> r.value == f.native(args)
  {
    if |args| == f.arity then Ok(f.native(args)) else Err(InvalidNumberOfArguments(f.arity, |args|))
  }

  // ---- properties ----

  /** A builtin call behaves as it does in the scoped evaluator, whatever the state. */
  lemma CallBuiltinAgrees<V>(f: F.Function<V>, args: seq<V>, env: Env<V>, ar: Evaluator.Arith<V>, depth: nat)
    requires f.External?
    ensures CallBuiltin(f, args) == Evaluator.Call(f, args, env, ar, depth)
  {
  }

  /** Where a name is inserted last, the table holds that entry; names never inserted keep the original entry. */
  lemma {:induction false} InsertAllEntry<V>(table: map<string, F.Function<V>>, entries: seq<(string, nat)>, lib: Library<V>, x: string)
    ensures x in InsertAll(table, entries, lib) <==> x in table || exists k :: 0 <= k < |entries| && entries[k].0 == x
    ensures (forall k :: 0 <= k < |entries| ==> entries[k].0 != x) && x in table ==> InsertAll(table, entries, lib)[x] == table[x]
    ensures (exists k :: 0 <= k < |entries| && entries[k].0 == x) ==>
      exists k :: 0 <= k < |entries| && entries[k].0 == x && InsertAll(table, entries, lib)[x] == F.External(entries[k].1, lib.native(x))
  {
    if entries != [] {
      var init := entries[..|entries| - 1];
      InsertAllEntry(table, init, lib, x);
      assert forall k :: 0 <= k < |init| ==> init[k] == entries[k];
      if entries[|entries| - 1].0 != x && exists k :: 0 <= k < |entries| && entries[k].0 == x {
        var k :| 0 <= k < |entries| && entries[k].0 == x;
        assert init[k].0 == x;
      }
    }
  }

  /** The arity each builtin is declared with: two for log and nroot, one for the rest. */
  function BuiltinArity(name: string): nat {
    if name == "log" || name == "nroot" then 2 else 1
  }

  /** A new context knows exactly the 26 builtins, each native, with arity 2 for log and nroot and 1 otherwise. */
  lemma SeededArities<V>(angle: AngleUnit, lib: Library<V>, name: string)
    ensures name in SeededFunctions(angle, lib) <==> name in TrigNames || exists k :: 0 <= k < |OtherBuiltins| && OtherBuiltins[k].0 == name
    ensures name in SeededFunctions(angle, lib) ==>
      SeededFunctions(angle, lib)[name].External? && SeededFunctions(angle, lib)[name].arity == BuiltinArity(name)
  {
    InsertAllEntry(TrigTable(angle, lib), OtherBuiltins, lib, name);
    OtherBuiltinArities();
    TrigArities(name);
  }

  lemma OtherBuiltinArities()
    ensures forall k :: 0 <= k < |OtherBuiltins| ==> OtherBuiltins[k].1 == BuiltinArity(OtherBuiltins[k].0)
  {
    forall k | 0 <= k < |OtherBuiltins|
      ensures OtherBuiltins[k].1 == BuiltinArity(OtherBuiltins[k].0)
    {
      if k < 15 {
        assert OtherBuiltins[k].1 == 1;
        assert |OtherBuiltins[k].0| != 3 || OtherBuiltins[k].0 != "log";
      }
    }
  }

  lemma TrigArities(name: string)
    ensures name in TrigNames ==> BuiltinArity(name) == 1
  {
  }

  /** The builtin constants cannot be redefined in a new context; any other name can. */
  lemma ConstantsProtected<V>(lib: Library<V>, name: string, n: V)
    ensures Assign(SeededVariables(lib), name, n).None? <==> name == "e" || name == "pi" || name == "tau"
  {
  }
}
