/**
 * Callable functions (src/models/function.rs, and the older copy in
 * src/context.rs): a builtin with a fixed arity and a native body, or a
 * user definition with its parameter names and body expression. The
 * value type V is a parameter.
 */
module Functions {
  import opened Ast

  datatype Function<!V> =
    | External(arity: nat, native: seq<V> -> V)
    | Internal(arity: nat, argNames: seq<string>, body: Expr)

  /** `Function::new_internal`: a user definition whose arity is its number of parameter names, as src/context.rs builds one. */
  function NewInternal<V>(argNames: seq<string>, body: Expr): (f: Function<V>)
    ensures f.Internal? && f.arity == |f.argNames| && f.argNames == argNames && f.body == body
  {
    Internal(|argNames|, argNames, body)
  }
}
