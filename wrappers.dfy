/**
 * Value wrappers shared by every module of the model.
 *
 * JavaScript functions in the modelled code either return a value, return
 * `undefined`, or throw an `Error`. `Option` stands for "a value or
 * undefined" and `Result` for "returned normally or threw".
 */
module Wrappers {

  datatype Option<+T> = None | Some(value: T)

  /** The outcome of a call: it returned `value`, or it threw an error carrying `message`. */
  datatype Result<+T> = Ok(value: T) | Throw(message: string) {

    predicate IsFailure() {
      Throw?
    }

    function PropagateFailure<U>(): Result<U>
      requires Throw?
    {
      Throw(message)
    }

    function Extract(): T
      requires Ok?
    {
      value
    }
  }

  /** The message of the `TypeError` thrown when a property is read from `undefined` or `null`. */
  const TypeErrorMessage: string := "TypeError: cannot read properties of undefined"
}
