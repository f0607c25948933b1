/** Option and Result values, used for the optional hue and for the
    exceptions the color library throws. */
module Wrappers {

  datatype Option<+T> = None | Some(value: T)

  /** Either a value or the error the C# code would have thrown. */
  datatype Result<+T, +E> = Ok(value: T) | Err(error: E) {

    predicate IsFailure() {
      Err?
    }

    function PropagateFailure<U>(): Result<U, E>
      requires Err?
    {
      Err(error)
    }

    function Extract(): T
      requires Ok?
    {
      value
    }
  }
}
