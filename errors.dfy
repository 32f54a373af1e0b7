/**
 * Evaluation errors (src/models/errors.rs; src/errors.rs is the older subset
 * without TypeError and NoHistory).
 */
module Errors {

  datatype EvalError =
    | DivisionByZero
    | MathDomain
    | Overflow
    | TypeError(expected: string, found: string)
    | InvalidNumberOfArguments(expectedCount: nat, foundCount: nat)
    | FunctionNotFound(name: string)
    | VariableNotFound(name: string)
    | InvalidVariableDefinition(name: string)
    | NoHistory
      /** The model's bound on nested user-function calls was reached; the
          program itself would exhaust its stack instead. */
    | RecursionLimit
}
