/** Outcome types shared by the whole model.

    Python reports failures by raising; the model returns them.  `Error`
    distinguishes the project's own `ParserException(rule, parameter,
    message)` (the parameter text is not kept), a plain `Exception(message)`
    raised by the chemistry code, and the built-in exceptions the code
    raises implicitly (KeyError, IndexError, ValueError, TypeError,
    AttributeError, NameError). */
module Wrappers {

  datatype Option<+T> = None | Some(value: T) {
    /** The value, or `default` when there is none (Python's `x or default`
        for values that are never falsy). */
    function GetOr(default: T): T {
      match this
      case Some(v) => v
      case None => default
    }
  }

  datatype Error =
    | ParserException(rule: string, message: string)
    | Raised(message: string)
    | Builtin(kind: string)
    /** A path of the source that this model deliberately does not follow
        (each use is listed in README under "Left out"). */
    | NotModelled

  datatype Result<+T> = Ok(value: T) | Err(error: Error) {
    predicate IsFailure() {
      Err?
    }

    function PropagateFailure<U>(): Result<U>
      requires Err?
    {
      Err(error)
    }

    function Extract(): T
      requires Ok?
    {
      value
    }
  }

  function Min(a: int, b: int): int {
    if a <= b then a else b
  }

  function Max(a: int, b: int): int {
    if a >= b then a else b
  }
}
