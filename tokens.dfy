/** Vocabulary shared by the lexer, the resolver and the evaluator of boolparse. */
module Tokens {

  /** The ways an evaluation can fail: the callback returned something that is not a
      boolean (the library's SecurityError), or the resolved token stream is not a
      boolean expression (the syntax error Python's eval would raise). */
  datatype Error = SecurityError | Malformed

  datatype Result<T> = Ok(value: T) | Err(error: Error) {
    predicate IsFailure() { Err? }

    function PropagateFailure<U>(): Result<U>
      requires Err?
    {
      Err(error)
    }

    function Extract(): T
      requires Ok?
    {
      value
    }
  }

  /** PARENTHESES and KEYWORDS: the two fixed operator sets. */
  const Parentheses: set<string> := {"(", ")"}
  const Keywords: set<string> := {"and", "or", "not"}

  /** A token that passes through the scanner unchanged. */
  predicate IsOperator(t: string) {
    t in Keywords || t in Parentheses
  }

  /** str(b) for a Python bool. */
  function Literal(b: bool): string {
    if b then "True" else "False"
  }

  /** The seven tokens a resolved stream may contain. */
  predicate IsResolved(t: string) {
    IsOperator(t) || t == "True" || t == "False"
  }
}
